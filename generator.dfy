/**
  The name generator: a registry object holding the two cached lists as
  arrays (the static fields `Names` and `Surnames`), its `PopulateNames`
  method, and `GenerateNames` with its defaulting overloads. The data
  source is a `fetch` parameter; `Random.Next` is a choice of an index in
  range.
 */
module Generator {
  import opened Lines
  import opened Filters
  import opened NameCache

  /** One generated entry: the first name, one space, the surname. */
  function FullName(name: string, surname: string): (full: string)
    ensures |full| == |name| + 1 + |surname|
    ensures full[..|name|] == name && full[|name|] == ' ' && full[|name| + 1..] == surname
  {
    name + " " + surname
  }

  /** A full name built from parts without spaces holds exactly one space. */
  lemma FullNameHasOneSpace(name: string, surname: string)
    requires ' ' !in name && ' ' !in surname
    ensures Occurrences(FullName(name, surname), ' ') == 1
  {
    OccurrencesAppend(name + " ", surname, ' ');
    OccurrencesAppend(name, " ", ' ');
    OccurrencesAbsent(name, ' ');
    OccurrencesAbsent(surname, ' ');
  }

  /** In a full name whose first name has no space, the first space ends the first name. */
  lemma SpaceEndsName(name: string, surname: string)
    requires ' ' !in name
    ensures FullName(name, surname)[|name|] == ' '
    ensures forall i :: 0 <= i < |name| ==> FullName(name, surname)[i] != ' '
  {
  }

  /** A full name built from a first name without spaces gives back both parts. */
  lemma FullNameParts(name: string, surname: string, name': string, surname': string)
    requires ' ' !in name && ' ' !in name'
    requires FullName(name, surname) == FullName(name', surname')
    ensures name == name' && surname == surname'
  {
    var full := FullName(name, surname);
    SpaceEndsName(name, surname);
    SpaceEndsName(name', surname');
    assert |name| == |name'|;
    assert name == full[..|name|] == name';
    assert surname == full[|name| + 1..] == surname';
  }

  /** Every entry of `list` is a full name made of an element of `ns` and one of `ss`. */
  ghost predicate DrawnFrom(list: seq<string>, ns: seq<string>, ss: seq<string>)
  {
    forall k :: 0 <= k < |list| ==>
      exists i, j :: 0 <= i < |ns| && 0 <= j < |ss| && list[k] == FullName(ns[i], ss[j])
  }

  /**
    The filtered lists `GenerateNames` draws from, or the error it throws:
    the name check comes first, so an empty surname list is reported only
    when some first name passes.
   */
  function Candidates(c: Lists, namePrefix: string, nameSuffix: string,
                      surnamePrefix: string, surnameSuffix: string): (r: Result<(seq<string>, seq<string>)>)
    ensures r == Failure(NamesNotFound) <==>
              forall x :: x in c.names ==> !NameMatches(x, namePrefix, nameSuffix)
    ensures r == Failure(SurnamesNotFound) <==>
              (exists x :: x in c.names && NameMatches(x, namePrefix, nameSuffix)) &&
              forall y :: y in c.surnames ==> !SurnameMatches(y, namePrefix, nameSuffix, surnamePrefix, surnameSuffix)
    ensures r.Success? || r == Failure(NamesNotFound) || r == Failure(SurnamesNotFound)
    ensures r.Success? ==>
              && r.value.0 == ProcessNames(c.names, namePrefix, nameSuffix) && |r.value.0| > 0
              && r.value.1 == ProcessSurnames(c.surnames, namePrefix, nameSuffix, surnamePrefix, surnameSuffix)
              && |r.value.1| > 0
  {
    var processedNames := ProcessNames(c.names, namePrefix, nameSuffix);
    var processedSurnames := ProcessSurnames(c.surnames, namePrefix, nameSuffix, surnamePrefix, surnameSuffix);
    if |processedNames| == 0 then
      Failure(NamesNotFound)
    else if |processedSurnames| == 0 then
      assert processedNames[0] in processedNames;
      Failure(SurnamesNotFound)
    else
      assert processedNames[0] in processedNames && processedSurnames[0] in processedSurnames;
      Success((processedNames, processedSurnames))
  }

  /**
    Without a name filter nothing is filtered, whatever surname filters are
    passed, so non-empty caches always give candidates.
   */
  lemma UnfilteredCandidates(c: Lists, surnamePrefix: string, surnameSuffix: string)
    requires |c.names| > 0 && |c.surnames| > 0
    ensures Candidates(c, "", "", surnamePrefix, surnameSuffix) == Success((c.names, c.surnames))
  {
  }

  /**
    `Random.Next(maxValue)`: some index in `[0, maxValue)`, or 0 when
    `maxValue` is 0. Which index is drawn is left open.
   */
  method Next(maxValue: int) returns (k: int)
    requires maxValue >= 0
    ensures maxValue == 0 ==> k == 0
    ensures maxValue > 0 ==> 0 <= k < maxValue
  {
    if maxValue == 0 {
      k := 0;
    } else {
      k :| 0 <= k < maxValue;
    }
  }

  /**
    The loop of `GenerateNames`: `count` passes (none when `count` is not
    positive), each drawing one index into each list and adding the full
    name they give.
   */
  method ComposeNames(count: int, processedNames: seq<string>, processedSurnames: seq<string>)
    returns (namesList: seq<string>)
    requires |processedNames| > 0 && |processedSurnames| > 0
    ensures |namesList| == if count > 0 then count else 0
    ensures DrawnFrom(namesList, processedNames, processedSurnames)
  {
    namesList := [];
    var nameNum := 1;
    while nameNum <= count
      invariant 1 <= nameNum <= (if count > 0 then count else 0) + 1
      invariant |namesList| == nameNum - 1
      invariant DrawnFrom(namesList, processedNames, processedSurnames)
    {
      var i := Next(|processedNames|);
      var j := Next(|processedSurnames|);
      var generated := FullName(processedNames[i], processedSurnames[j]);
      assert forall k :: 0 <= k < |namesList| ==> (namesList + [generated])[k] == namesList[k];
      assert (namesList + [generated])[|namesList|] == FullName(processedNames[i], processedSurnames[j]);
      namesList := namesList + [generated];
      nameNum := nameNum + 1;
    }
  }

  /**
    What `GenerateNames(count, ...)` may return after population `p`: the
    population's error; else the filter error; else `max(count, 0)` full
    names drawn from the filtered lists.
   */
  ghost predicate Generated(r: Result<seq<string>>, p: Population, count: int,
                            namePrefix: string, nameSuffix: string, surnamePrefix: string, surnameSuffix: string)
  {
    match p.outcome
    case Fail(e) => r == Failure(e)
    case Pass =>
      match Candidates(p.lists, namePrefix, nameSuffix, surnamePrefix, surnameSuffix)
      case Failure(e) => r == Failure(e)
      case Success(lists) =>
        && r.Success?
        && |r.value| == (if count > 0 then count else 0)
        && DrawnFrom(r.value, lists.0, lists.1)
  }

  /** The static class, as an object whose two cached lists are written once. */
  class NameGenerator {
    var names: array<string>
    var surnames: array<string>

    /** Both caches start as `Array.Empty<string>()`. */
    constructor ()
      ensures Cached() == Lists([], [])
    {
      names := new string[0];
      surnames := new string[0];
    }

    /** The current contents of the two caches. */
    function Cached(): (lists: Lists)
      reads this, names, surnames
    {
      Lists(names[..], surnames[..])
    }

    /** A fresh array holding `lines`, as `SplitNewLines` returns them. */
    static method ToArray(lines: seq<string>) returns (a: array<string>)
      ensures fresh(a) && a[..] == lines
    {
      a := new string[|lines|](i requires 0 <= i < |lines| => lines[i]);
    }

    /**
      `PopulateNames`: the caches afterwards, the outcome and the files
      requested are those of `Populate` on the caches before; a cache that
      was already filled keeps its array.
     */
    method PopulateNames(fetch: ListFile -> FetchResult) returns (outcome: Outcome, ghost fetched: seq<ListFile>)
      modifies this
      ensures Cached() == Populate(old(Cached()), fetch).lists
      ensures outcome == Populate(old(Cached()), fetch).outcome
      ensures fetched == Populate(old(Cached()), fetch).fetched
      ensures old(names.Length) > 0 ==> names == old(names)
      ensures old(surnames.Length) > 0 ==> surnames == old(surnames)
    {
      fetched := [];
      if names.Length == 0 {
        var response := fetch(FirstNamesFile);
        fetched := fetched + [FirstNamesFile];
        if response.FetchFailed? {
          return Fail(CannotGetNames(response.cause)), fetched;
        }
        names := ToArray(SplitNewLines(response.text));
      }
      if surnames.Length == 0 {
        var response := fetch(SurnamesFile);
        fetched := fetched + [SurnamesFile];
        if response.FetchFailed? {
          return Fail(CannotGetNames(response.cause)), fetched;
        }
        surnames := ToArray(SplitNewLines(response.text));
      }
      outcome := Pass;
    }

    /**
      `GenerateNames(Count, NamePrefix, NameSuffix, SurnamePrefix,
      SurnameSuffix)`: populates the caches, filters, fails when a filtered
      list is empty, and otherwise returns `max(count, 0)` full names drawn
      from the filtered lists.
     */
    method GenerateNames(count: int, namePrefix: string, nameSuffix: string,
                         surnamePrefix: string, surnameSuffix: string, fetch: ListFile -> FetchResult)
      returns (r: Result<seq<string>>)
      modifies this
      ensures Cached() == Populate(old(Cached()), fetch).lists
      ensures Generated(r, Populate(old(Cached()), fetch), count, namePrefix, nameSuffix, surnamePrefix, surnameSuffix)
    {
      ghost var fetched;
      var outcome;
      outcome, fetched := PopulateNames(fetch);
      if outcome.Fail? {
        return Failure(outcome.error);
      }
      var candidates := Candidates(Cached(), namePrefix, nameSuffix, surnamePrefix, surnameSuffix);
      if candidates.Failure? {
        return Failure(candidates.error);
      }
      var namesList := ComposeNames(count, candidates.value.0, candidates.value.1);
      r := Success(namesList);
    }

    /**
      `GenerateNames()`: ten full names, unfiltered. Once population
      succeeds it cannot fail, and every name pairs a cached first name
      with a cached surname.
     */
    method GenerateDefaultNames(fetch: ListFile -> FetchResult) returns (r: Result<seq<string>>)
      modifies this
      ensures Cached() == Populate(old(Cached()), fetch).lists
      ensures Generated(r, Populate(old(Cached()), fetch), 10, "", "", "", "")
      ensures Populate(old(Cached()), fetch).outcome.Pass? ==>
                r.Success? && |r.value| == 10 && DrawnFrom(r.value, Cached().names, Cached().surnames)
    {
      r := GenerateNames(10, "", "", "", "", fetch);
      if r.Success? {
        UnfilteredCandidates(Cached(), "", "");
      }
    }

    /**
      `GenerateNames(Count)`: `max(count, 0)` full names, unfiltered; once
      population succeeds it cannot fail.
     */
    method GenerateCountNames(count: int, fetch: ListFile -> FetchResult) returns (r: Result<seq<string>>)
      modifies this
      ensures Cached() == Populate(old(Cached()), fetch).lists
      ensures Generated(r, Populate(old(Cached()), fetch), count, "", "", "", "")
      ensures Populate(old(Cached()), fetch).outcome.Pass? ==>
                r.Success? && |r.value| == (if count > 0 then count else 0) &&
                DrawnFrom(r.value, Cached().names, Cached().surnames)
    {
      r := GenerateNames(count, "", "", "", "", fetch);
      if r.Success? {
        UnfilteredCandidates(Cached(), "", "");
      }
    }
  }
}
