/**
  The prefix and suffix filters of `GenerateNames`: LINQ `Where` over the
  cached lists, with the lambda chosen by which filter strings are given.
  Strings are never null here, so `string.IsNullOrEmpty(s)` is `s == ""`;
  `StartsWith` and `EndsWith` are exact sequence comparisons.
 */
module Filters {

  /** The prefix test as a comparison of the leading slice. */
  lemma LeadingSlice(s: string, prefix: string)
    ensures (|prefix| <= |s| && s[..|prefix|] == prefix) <==> exists rest: string :: s == prefix + rest
  {
    if |prefix| <= |s| && s[..|prefix|] == prefix {
      assert s == prefix + s[|prefix|..];
    }
    forall rest: string | s == prefix + rest
      ensures |prefix| <= |s| && s[..|prefix|] == prefix
    {
    }
  }

  /** The suffix test as a comparison of the trailing slice. */
  lemma TrailingSlice(s: string, suffix: string)
    ensures (|suffix| <= |s| && s[|s| - |suffix|..] == suffix) <==> exists front: string :: s == front + suffix
  {
    if |suffix| <= |s| && s[|s| - |suffix|..] == suffix {
      assert s == s[..|s| - |suffix|] + suffix;
    }
    forall front: string | s == front + suffix
      ensures |suffix| <= |s| && s[|s| - |suffix|..] == suffix
    {
      assert |front| == |s| - |suffix|;
    }
  }

  /** `string.StartsWith(string)`: `s` is `prefix` followed by something. */
  predicate StartsWith(s: string, prefix: string): (b: bool)
    ensures b <==> exists rest: string :: s == prefix + rest
  {
    LeadingSlice(s, prefix);
    |prefix| <= |s| && s[..|prefix|] == prefix
  }

  /** `string.EndsWith(string)`: `s` is something followed by `suffix`. */
  predicate EndsWith(s: string, suffix: string): (b: bool)
    ensures b <==> exists front: string :: s == front + suffix
  {
    TrailingSlice(s, suffix);
    |suffix| <= |s| && s[|s| - |suffix|..] == suffix
  }

  /** LINQ `Where`: the elements `keep` accepts, in their original order. */
  function Where(xs: seq<string>, keep: string -> bool): (r: seq<string>)
    ensures |r| <= |xs|
    ensures forall k :: 0 <= k < |r| ==> keep(r[k])
    ensures forall x :: x in r <==> x in xs && keep(x)
  {
    if xs == [] then []
    else (if keep(xs[0]) then [xs[0]] else []) + Where(xs[1..], keep)
  }

  /** `r` lists the elements of `xs` at the positions `idx`. */
  ghost predicate Picks(r: seq<string>, xs: seq<string>, idx: seq<int>)
  {
    |idx| == |r| && forall k :: 0 <= k < |idx| ==> 0 <= idx[k] < |xs| && r[k] == xs[idx[k]]
  }

  ghost predicate Increasing(idx: seq<int>)
  {
    forall k, l :: 0 <= k < l < |idx| ==> idx[k] < idx[l]
  }

  /** `idx` holds exactly the positions of `xs` whose element `keep` accepts. */
  ghost predicate Covers(xs: seq<string>, keep: string -> bool, idx: seq<int>)
  {
    forall i :: 0 <= i < |xs| ==> (keep(xs[i]) <==> i in idx)
  }

  /**
    `r` is the order-preserving subsequence of `xs` made of exactly the
    positions whose element `keep` accepts; `idx` lists those positions.
   */
  ghost predicate SelectsExactly(r: seq<string>, xs: seq<string>, keep: string -> bool, idx: seq<int>)
  {
    Picks(r, xs, idx) && Increasing(idx) && Covers(xs, keep, idx)
  }

  /** Every position moved one place to the right. */
  function Shift(idx: seq<int>): (s: seq<int>)
    ensures |s| == |idx|
    ensures forall k :: 0 <= k < |idx| ==> s[k] == idx[k] + 1
  {
    seq(|idx|, k requires 0 <= k < |idx| => idx[k] + 1)
  }

  lemma ShiftMembers(idx: seq<int>, i: int)
    ensures i in Shift(idx) <==> i - 1 in idx
  {
  }

  lemma PicksShift(x: string, t: seq<string>, rt: seq<string>, it: seq<int>)
    requires Picks(rt, t, it)
    ensures Picks(rt, [x] + t, Shift(it))
    ensures Picks([x] + rt, [x] + t, [0] + Shift(it))
  {
  }

  lemma IncreasingShift(xs: seq<string>, it: seq<int>)
    requires Increasing(it)
    requires forall k :: 0 <= k < |it| ==> 0 <= it[k]
    ensures Increasing(Shift(it))
    ensures Increasing([0] + Shift(it))
  {
  }

  lemma CoversShift(x: string, t: seq<string>, keep: string -> bool, it: seq<int>)
    requires Covers(t, keep, it)
    requires forall k :: 0 <= k < |it| ==> 0 <= it[k]
    ensures !keep(x) ==> Covers([x] + t, keep, Shift(it))
    ensures keep(x) ==> Covers([x] + t, keep, [0] + Shift(it))
  {
  }

  /** `Where` keeps exactly the accepted positions, in increasing order. */
  lemma {:induction false} WhereSelects(xs: seq<string>, keep: string -> bool) returns (idx: seq<int>)
    ensures SelectsExactly(Where(xs, keep), xs, keep, idx)
  {
    if xs == [] {
      idx := [];
    } else {
      var x, t := xs[0], xs[1..];
      var rt := Where(t, keep);
      var tail := WhereSelects(t, keep);
      assert xs == [x] + t;
      if keep(x) {
        assert Where(xs, keep) == [x] + rt;
        PicksShift(x, t, rt, tail);
        IncreasingShift(t, tail);
        CoversShift(x, t, keep, tail);
        idx := [0] + Shift(tail);
      } else {
        assert Where(xs, keep) == rt;
        PicksShift(x, t, rt, tail);
        IncreasingShift(t, tail);
        CoversShift(x, t, keep, tail);
        idx := Shift(tail);
      }
    }
  }

  /** `Where` depends only on what `keep` says of the elements present. */
  lemma {:induction false} WhereAgrees(xs: seq<string>, keep: string -> bool, keep': string -> bool)
    requires forall i :: 0 <= i < |xs| ==> keep(xs[i]) == keep'(xs[i])
    ensures Where(xs, keep) == Where(xs, keep')
  {
    if xs != [] {
      WhereAgrees(xs[1..], keep, keep');
    }
  }

  /** A filter every element passes is the identity. */
  lemma {:induction false} WhereAll(xs: seq<string>, keep: string -> bool)
    requires forall i :: 0 <= i < |xs| ==> keep(xs[i])
    ensures Where(xs, keep) == xs
  {
    if xs != [] {
      WhereAll(xs[1..], keep);
      assert xs == [xs[0]] + xs[1..];
    }
  }

  /**
    What a first name must satisfy: start with `namePrefix` when one is
    given, end with `nameSuffix` when one is given.
   */
  predicate NameMatches(s: string, namePrefix: string, nameSuffix: string)
  {
    (namePrefix == "" || StartsWith(s, namePrefix)) && (nameSuffix == "" || EndsWith(s, nameSuffix))
  }

  /**
    What a surname must satisfy as the filter is coded: the surname prefix
    is checked exactly when a NAME prefix is given, the surname suffix
    exactly when a NAME suffix is given.
   */
  predicate SurnameMatches(s: string, namePrefix: string, nameSuffix: string,
                           surnamePrefix: string, surnameSuffix: string)
  {
    (namePrefix != "" ==> StartsWith(s, surnamePrefix)) && (nameSuffix != "" ==> EndsWith(s, surnameSuffix))
  }

  /** The processed first names: the cached list filtered by the name flags. */
  function ProcessNames(names: seq<string>, namePrefix: string, nameSuffix: string): (r: seq<string>)
    ensures |r| <= |names|
    ensures forall k :: 0 <= k < |r| ==> NameMatches(r[k], namePrefix, nameSuffix)
    ensures forall x :: x in r <==> x in names && NameMatches(x, namePrefix, nameSuffix)
  {
    var prefixCheck := namePrefix != "";
    var suffixCheck := nameSuffix != "";
    if prefixCheck && suffixCheck then
      Where(names, (s: string) => StartsWith(s, namePrefix) && EndsWith(s, nameSuffix))
    else if prefixCheck then
      Where(names, (s: string) => StartsWith(s, namePrefix))
    else if suffixCheck then
      Where(names, (s: string) => EndsWith(s, nameSuffix))
    else
      names
  }

  /** The names that the flag cases keep are those `NameMatches` accepts. */
  lemma ProcessNamesIsWhere(names: seq<string>, namePrefix: string, nameSuffix: string)
    ensures ProcessNames(names, namePrefix, nameSuffix)
         == Where(names, (s: string) => NameMatches(s, namePrefix, nameSuffix))
  {
    var spec := (s: string) => NameMatches(s, namePrefix, nameSuffix);
    if namePrefix != "" && nameSuffix != "" {
      WhereAgrees(names, (s: string) => StartsWith(s, namePrefix) && EndsWith(s, nameSuffix), spec);
    } else if namePrefix != "" {
      WhereAgrees(names, (s: string) => StartsWith(s, namePrefix), spec);
    } else if nameSuffix != "" {
      WhereAgrees(names, (s: string) => EndsWith(s, nameSuffix), spec);
    } else {
      WhereAll(names, spec);
    }
  }

  /**
    The processed first names are exactly the order-preserving subsequence
    of `names` whose elements `NameMatches` accepts; with neither filter
    given that is `names` itself.
   */
  lemma ProcessNamesSelects(names: seq<string>, namePrefix: string, nameSuffix: string) returns (idx: seq<int>)
    ensures SelectsExactly(ProcessNames(names, namePrefix, nameSuffix), names,
                           (s: string) => NameMatches(s, namePrefix, nameSuffix), idx)
    ensures namePrefix == "" && nameSuffix == "" ==> ProcessNames(names, namePrefix, nameSuffix) == names
  {
    ProcessNamesIsWhere(names, namePrefix, nameSuffix);
    idx := WhereSelects(names, (s: string) => NameMatches(s, namePrefix, nameSuffix));
  }

  /**
    The processed surnames: the cached list filtered by the SURNAME strings,
    with the case chosen by the NAME flags, as the code has it.
   */
  function ProcessSurnames(surnames: seq<string>, namePrefix: string, nameSuffix: string,
                           surnamePrefix: string, surnameSuffix: string): (r: seq<string>)
    ensures |r| <= |surnames|
    ensures forall k :: 0 <= k < |r| ==> SurnameMatches(r[k], namePrefix, nameSuffix, surnamePrefix, surnameSuffix)
    ensures forall x :: x in r <==> x in surnames && SurnameMatches(x, namePrefix, nameSuffix, surnamePrefix, surnameSuffix)
  {
    var prefixCheck := namePrefix != "";
    var suffixCheck := nameSuffix != "";
    if prefixCheck && suffixCheck then
      Where(surnames, (s: string) => StartsWith(s, surnamePrefix) && EndsWith(s, surnameSuffix))
    else if prefixCheck then
      Where(surnames, (s: string) => StartsWith(s, surnamePrefix))
    else if suffixCheck then
      Where(surnames, (s: string) => EndsWith(s, surnameSuffix))
    else
      surnames
  }

  /** The surnames that the flag cases keep are those `SurnameMatches` accepts. */
  lemma ProcessSurnamesIsWhere(surnames: seq<string>, namePrefix: string, nameSuffix: string,
                               surnamePrefix: string, surnameSuffix: string)
    ensures ProcessSurnames(surnames, namePrefix, nameSuffix, surnamePrefix, surnameSuffix)
         == Where(surnames, (s: string) => SurnameMatches(s, namePrefix, nameSuffix, surnamePrefix, surnameSuffix))
  {
    var spec := (s: string) => SurnameMatches(s, namePrefix, nameSuffix, surnamePrefix, surnameSuffix);
    if namePrefix != "" && nameSuffix != "" {
      WhereAgrees(surnames, (s: string) => StartsWith(s, surnamePrefix) && EndsWith(s, surnameSuffix), spec);
    } else if namePrefix != "" {
      WhereAgrees(surnames, (s: string) => StartsWith(s, surnamePrefix), spec);
    } else if nameSuffix != "" {
      WhereAgrees(surnames, (s: string) => EndsWith(s, surnameSuffix), spec);
    } else {
      WhereAll(surnames, spec);
    }
  }

  /**
    The processed surnames are exactly the order-preserving subsequence of
    `surnames` that `SurnameMatches` accepts; with no NAME filter given the
    surname filters are ignored and the list is `surnames` itself.
   */
  lemma ProcessSurnamesSelects(surnames: seq<string>, namePrefix: string, nameSuffix: string,
                               surnamePrefix: string, surnameSuffix: string) returns (idx: seq<int>)
    ensures SelectsExactly(ProcessSurnames(surnames, namePrefix, nameSuffix, surnamePrefix, surnameSuffix), surnames,
                           (s: string) => SurnameMatches(s, namePrefix, nameSuffix, surnamePrefix, surnameSuffix), idx)
    ensures namePrefix == "" && nameSuffix == "" ==>
              ProcessSurnames(surnames, namePrefix, nameSuffix, surnamePrefix, surnameSuffix) == surnames
  {
    ProcessSurnamesIsWhere(surnames, namePrefix, nameSuffix, surnamePrefix, surnameSuffix);
    idx := WhereSelects(surnames, (s: string) => SurnameMatches(s, namePrefix, nameSuffix, surnamePrefix, surnameSuffix));
  }

  /**
    When the name filters and the surname filters are given on the same
    sides, the surname filter is the one its own strings ask for.
   */
  lemma SurnameFilterWhenSidesAgree(surnames: seq<string>, namePrefix: string, nameSuffix: string,
                                    surnamePrefix: string, surnameSuffix: string)
    requires (namePrefix == "") == (surnamePrefix == "")
    requires (nameSuffix == "") == (surnameSuffix == "")
    ensures ProcessSurnames(surnames, namePrefix, nameSuffix, surnamePrefix, surnameSuffix)
         == ProcessNames(surnames, surnamePrefix, surnameSuffix)
  {
  }

  /**
    A surname prefix given without a name prefix filters nothing, where a
    filter on its own strings would drop "Smith".
   */
  lemma SurnameFilterFollowsNameFlags()
    ensures ProcessSurnames(["Lo", "Smith"], "", "", "Lo", "") == ["Lo", "Smith"]
    ensures ProcessNames(["Lo", "Smith"], "Lo", "") == ["Lo"]
  {
    var xs := ["Lo", "Smith"];
    assert StartsWith(xs[0], "Lo");
    assert !StartsWith(xs[1], "Lo") by {
      assert xs[1][..2] == "Sm";
    }
    assert xs[1..] == ["Smith"] && xs[1..][1..] == [];
  }
}
