/**
  Lazy population of the two cached word lists, as `PopulateNames` does it,
  stated on values: each list is fetched and assigned only while it is
  empty, the assignment is the last step of its block, and the first
  failure ends the call with an error that wraps its cause. The HTTP
  request is a `fetch` function from the file asked for to its text or a
  failure.
 */
module NameCache {
  import opened Lines

  /** The two files on the content network: FirstNames.txt and Surnames.txt. */
  datatype ListFile = FirstNamesFile | SurnamesFile

  /** What one request gives back: the body as text, or a failure and its cause. */
  datatype FetchResult = Fetched(text: string) | FetchFailed(cause: string)

  /** The exceptions the generator throws, without their message text. */
  datatype Error =
    | CannotGetNames(cause: string)  // any failure inside `PopulateNames`, wrapping its cause
    | NamesNotFound                  // no first name passes the name filter
    | SurnamesNotFound               // no surname passes the surname filter

  datatype Outcome = Pass | Fail(error: Error)

  datatype Result<T> = Success(value: T) | Failure(error: Error)

  /** The contents of the two caches, `Names` and `Surnames`. */
  datatype Lists = Lists(names: seq<string>, surnames: seq<string>)

  /** The caches after a population, how it ended, and the files it requested, in order. */
  datatype Population = Population(lists: Lists, outcome: Outcome, fetched: seq<ListFile>)

  /** The surname block of `PopulateNames`, run once the name block is done. */
  function PopulateSurnames(c: Lists, fetch: ListFile -> FetchResult, fetched: seq<ListFile>): (p: Population)
    ensures p.lists.names == c.names
    ensures |c.surnames| > 0 ==> p == Population(c, Pass, fetched)
    ensures |c.surnames| == 0 && fetch(SurnamesFile).Fetched? ==>
              p.outcome == Pass && p.lists.surnames == SplitNewLines(fetch(SurnamesFile).text) && |p.lists.surnames| > 0
    ensures |c.surnames| == 0 && fetch(SurnamesFile).FetchFailed? ==>
              p == Population(c, Fail(CannotGetNames(fetch(SurnamesFile).cause)), fetched + [SurnamesFile])
    ensures p.fetched == fetched + (if |c.surnames| == 0 then [SurnamesFile] else [])
  {
    if |c.surnames| == 0 then
      match fetch(SurnamesFile)
      case FetchFailed(cause) => Population(c, Fail(CannotGetNames(cause)), fetched + [SurnamesFile])
      case Fetched(text) => Population(c.(surnames := SplitNewLines(text)), Pass, fetched + [SurnamesFile])
    else
      Population(c, Pass, fetched)
  }

  /**
    `PopulateNames` on caches `c`. A list that is already filled is kept and
    its file is not requested; a list that is empty is requested and, when
    the request succeeds, replaced by the lines of the text, which makes it
    non-empty. A failed request leaves its list empty and fails the call
    with the cause wrapped; a first-name list filled before a failing
    surname request stays filled. On success both lists are non-empty.
   */
  function Populate(c: Lists, fetch: ListFile -> FetchResult): (p: Population)
    ensures p.outcome.Pass? <==>
              (|c.names| > 0 || fetch(FirstNamesFile).Fetched?) && (|c.surnames| > 0 || fetch(SurnamesFile).Fetched?)
    ensures p.outcome.Pass? ==> |p.lists.names| > 0 && |p.lists.surnames| > 0
    ensures |c.names| > 0 ==> p.lists.names == c.names
    ensures |c.surnames| > 0 ==> p.lists.surnames == c.surnames
    ensures |c.names| == 0 && fetch(FirstNamesFile).Fetched? ==>
              p.lists.names == SplitNewLines(fetch(FirstNamesFile).text)
    ensures |c.names| == 0 && fetch(FirstNamesFile).FetchFailed? ==>
              p == Population(c, Fail(CannotGetNames(fetch(FirstNamesFile).cause)), [FirstNamesFile])
    ensures |p.lists.names| > 0 && |c.surnames| == 0 && fetch(SurnamesFile).FetchFailed? ==>
              p.outcome == Fail(CannotGetNames(fetch(SurnamesFile).cause)) && p.lists.surnames == []
    ensures |p.lists.names| > 0 && |c.surnames| == 0 && fetch(SurnamesFile).Fetched? ==>
              p.lists.surnames == SplitNewLines(fetch(SurnamesFile).text)
    ensures p.fetched == (if |c.names| == 0 then [FirstNamesFile] else []) +
                         (if |c.surnames| == 0 && |p.lists.names| > 0 then [SurnamesFile] else [])
    ensures FirstNamesFile in p.fetched <==> |c.names| == 0
    ensures SurnamesFile in p.fetched <==> |c.surnames| == 0 && |p.lists.names| > 0
    ensures |p.fetched| <= 2
  {
    if |c.names| == 0 then
      match fetch(FirstNamesFile)
      case FetchFailed(cause) => Population(c, Fail(CannotGetNames(cause)), [FirstNamesFile])
      case Fetched(text) => PopulateSurnames(c.(names := SplitNewLines(text)), fetch, [FirstNamesFile])
    else
      PopulateSurnames(c, fetch, [])
  }

  /**
    After a population that ended normally, a second one with any source
    requests nothing, changes nothing and ends normally.
   */
  lemma PopulateIdempotent(c: Lists, fetch: ListFile -> FetchResult, again: ListFile -> FetchResult)
    requires Populate(c, fetch).outcome.Pass?
    ensures Populate(Populate(c, fetch).lists, again) == Population(Populate(c, fetch).lists, Pass, [])
  {
  }

  /**
    A failed population leaves an empty list behind, so the next call
    requests a file again: the failure is retryable.
   */
  lemma FailedPopulateIsRetried(c: Lists, fetch: ListFile -> FetchResult, again: ListFile -> FetchResult)
    requires Populate(c, fetch).outcome.Fail?
    ensures |Populate(Populate(c, fetch).lists, again).fetched| > 0
  {
  }
}
