# Namer name generator, modelled in Dafny

Namer builds plausible full names. It takes a random first name and a random surname from two word lists published on a content network and joins them with one space. `NameGenerator` is one static class. It has two process-wide caches, `Names` and `Surnames`, and three pieces of logic:

- `SplitNewLines` turns a downloaded file into lines.
- `PopulateNames` fills the caches lazily.
- `GenerateNames` filters the cached lists by prefix and suffix and draws `Count` full names.

The project models all of it, in four modules:

- `Lines` (`lines.dfy`): `SplitNewLines`, built from `string.Replace(char, char)` and `string.Split(char)`. `Join` is their reference partner, and there are round-trip lemmas in both directions.
- `Filters` (`filters.dfy`): LINQ `Where`, the prefix/suffix tests, and the two filter cascades of `GenerateNames`. Each result is characterized exactly as the order-preserving subsequence of the accepted positions.
- `NameCache` (`cache.dfy`): `Populate`, a function on values that states what `PopulateNames` does to the two caches, which files it requests, and how it ends.
- `Generator` (`generator.dfy`): a class `NameGenerator` whose two `array<string>` fields are the static caches. It has a `PopulateNames` method proved against `Populate`, the `GenerateNames` method, and its two defaulting overloads. Outside the class there is the pure filter-and-check step `Candidates` and the generation loop `ComposeNames`. The loop is proved to give exactly `max(Count, 0)` entries, each a first-name candidate, a space and a surname candidate.

External parts are replaced by parameters:

- HTTP: the request for a file is a parameter `fetch: ListFile -> FetchResult`. It gives the body text or a failure with its cause. A method call may pass any such function, so every possible answer of the content network is covered.
- Randomness: `Random.Next(n)` is the method `Next`. It returns some index in `[0, n)` (0 when `n` is 0). Which index it returns is left open.
- Exceptions: these become the `Error` datatype inside an `Outcome` or `Result`:
  - `CannotGetNames(cause)`: the wrapped failure of `PopulateNames`;
  - `NamesNotFound`;
  - `SurnamesNotFound`.

The model follows the code as written, including where it behaves differently from what a reader of the method names would expect:

- **CR handling.** `SplitNewLines` calls `Replace(Convert.ToChar(13), default)`. That picks the `(char, char)` overload, so every carriage return becomes NUL and is not removed. A CRLF file therefore does not split like an LF file: each line keeps a trailing NUL (`Lines.CarriageReturnBecomesNul`).
- **Surname filter flags.** The surname filter is chosen by the flags computed from the name prefix and suffix (Namer/NameGenerator.cs:123-128). The flags computed from the surname filters (:109-110) are never used. As a result:
  - with no name filter, the surname filters are ignored;
  - a surname prefix is applied whenever a name prefix is given, even an empty one that accepts everything.

  `Filters.SurnameFilterFollowsNameFlags` shows a surname filter that filters nothing. `Filters.SurnameFilterWhenSidesAgree` shows that the coded filter matches the intended one when the name and surname filters are given on the same sides.
- **Population before filter errors.** Even with `Count <= 0`, `GenerateNames` still populates and still throws when a filtered list is empty.

## Model

| member | source | states |
|---|---|---|
| `Lines.Replace` | Namer/NameGenerator.cs:154 | `Replace(char, char)` keeps the length; each position holds the replacement where the input had the replaced character, and the input character everywhere else |
| `Lines.ReplaceKeepsOthers` | Namer/NameGenerator.cs:154 | replacing CR by NUL does not change how many times any character other than CR and NUL, such as LF, occurs |
| `Lines.Split` | Namer/NameGenerator.cs:154 | `Split(char)` returns one piece more than there are delimiters, so never an empty array, and no piece holds the delimiter |
| `Lines.JoinOfSplit` | Namer/NameGenerator.cs:154 | joining the pieces of a split with the delimiter gives back the text |
| `Lines.SplitOfJoin` | Namer/NameGenerator.cs:154 | splitting a join of delimiter-free pieces gives back the pieces, so the split is the inverse of the join |
| `Lines.SplitNewLines` | Namer/NameGenerator.cs:152-155 | the result has (number of LFs in the text) + 1 lines and is never empty; no line holds LF or CR; joining the lines with LF gives the text with every CR replaced by NUL |
| `Lines.SplitNewLinesOfJoin` | Namer/NameGenerator.cs:152-155 | any non-empty list of lines free of CR and LF is what `SplitNewLines` makes of their LF-join |
| `Lines.CarriageReturnBecomesNul` | Namer/NameGenerator.cs:154 | "A\r\nB" splits into "A\0" and "B", which differs from the split of "A\nB": the CR is not removed |
| `Filters.StartsWith` | Namer/NameGenerator.cs:115-128 | `str.StartsWith(prefix)` holds exactly when the string is the prefix followed by some rest, compared character by character |
| `Filters.EndsWith` | Namer/NameGenerator.cs:115-128 | `str.EndsWith(suffix)` holds exactly when the string is some front followed by the suffix, compared character by character |
| `Filters.Where` | Namer/NameGenerator.cs:115-128 | `Where` keeps only accepted elements, never grows the list, and an element is in the result exactly when it is in the input and accepted |
| `Filters.WhereSelects` | Namer/NameGenerator.cs:115-128 | `Where` returns exactly the elements at the accepted positions, in increasing position order |
| `Filters.ProcessNames` | Namer/NameGenerator.cs:107-119 | every processed name starts with the name prefix when one is given and ends with the name suffix when one is given; a name is kept exactly when it is cached and matches |
| `Filters.ProcessNamesIsWhere` | Namer/NameGenerator.cs:107-119 | the four flag cases together filter the names by one predicate: (no prefix or starts with it) and (no suffix or ends with it) |
| `Filters.ProcessNamesSelects` | Namer/NameGenerator.cs:107-119 | the processed names are exactly the order-preserving subsequence of `Names` that matches the name filters, and are `Names` itself when neither filter is given |
| `Filters.ProcessSurnames` | Namer/NameGenerator.cs:122-128 | every processed surname starts with the surname prefix when a name prefix is given and ends with the surname suffix when a name suffix is given; a surname is kept exactly when it is cached and matches |
| `Filters.ProcessSurnamesIsWhere` | Namer/NameGenerator.cs:122-128 | the four cases, chosen by the name flags, filter the surnames by one predicate: (name prefix given implies starts with the surname prefix) and (name suffix given implies ends with the surname suffix) |
| `Filters.ProcessSurnamesSelects` | Namer/NameGenerator.cs:122-128 | the processed surnames are exactly the order-preserving subsequence of `Surnames` that this predicate accepts; with no name filter they are `Surnames` itself, whatever surname filters are passed |
| `Filters.SurnameFilterWhenSidesAgree` | Namer/NameGenerator.cs:107-128 | when the name and surname filters are given on the same sides, the processed surnames are the surnames filtered by their own prefix and suffix |
| `Filters.SurnameFilterFollowsNameFlags` | Namer/NameGenerator.cs:122-128 | with no name filter, surname prefix "Lo" keeps both "Lo" and "Smith", while filtering by "Lo" itself keeps only "Lo" |
| `NameCache.Populate` | Namer/NameGenerator.cs:43-68 | population ends normally exactly when each list was filled or its request succeeded, and then both lists are non-empty; a filled list is kept and its file not requested; a successful request stores the lines of its text; a failed first-name request ends the call with its cause wrapped and changes nothing; a failed surname request leaves the surnames empty and keeps the names assigned before it; the files requested are exactly the first-name file when the names were empty, then the surname file when the surnames were empty and the names are filled, each once and in that order |
| `NameCache.PopulateSurnames` | Namer/NameGenerator.cs:55-62 | the surname block keeps the names; a filled surname list is kept and not requested; otherwise the surname file is requested once and its lines stored on success, or the call fails with the cause wrapped and the surnames left empty |
| `NameCache.PopulateIdempotent` | Namer/NameGenerator.cs:47-55 | after a successful population, another one with any source requests no file, changes nothing and succeeds |
| `NameCache.FailedPopulateIsRetried` | Namer/NameGenerator.cs:47-61 | after a failed population a list is still empty, so the next population requests a file again |
| `Generator.Candidates` | Namer/NameGenerator.cs:113-134 | the call fails with the names error exactly when no cached name matches the name filters; it fails with the surnames error exactly when some name matches but no surname matches; otherwise it yields the processed names and surnames, both non-empty |
| `Generator.UnfilteredCandidates` | Namer/NameGenerator.cs:113-134 | with no name filter and non-empty caches there is never an error and the candidates are the whole caches, whatever surname filters are passed |
| `Generator.Next` | Namer/NameGenerator.cs:140-141 | `Random.Next(n)` returns an index in `[0, n)`, or 0 when `n` is 0 |
| `Generator.ComposeNames` | Namer/NameGenerator.cs:137-144 | the loop gives exactly `max(Count, 0)` entries; each is a full name made of some processed name and some processed surname |
| `Generator.FullName` | Namer/NameGenerator.cs:142 | an entry is the first name, then one space at the first name's length, then the surname, and is one character longer than its two parts |
| `Generator.FullNameHasOneSpace` | Namer/NameGenerator.cs:142 | a generated entry whose parts have no spaces holds exactly one space |
| `Generator.FullNameParts` | Namer/NameGenerator.cs:142 | an entry determines its first name and surname when the first name has no space, so joining with " " is invertible |
| `Generator.NameGenerator.constructor` | Namer/NameGenerator.cs:36-37 | both caches start empty |
| `Generator.NameGenerator.PopulateNames` | Namer/NameGenerator.cs:43-68 | the new caches, the outcome and the files requested are those `NameCache.Populate` gives for the old caches; an already filled cache keeps its array |
| `Generator.NameGenerator.GenerateNames` | Namer/NameGenerator.cs:98-145 | the caches become those of `Populate`; a population failure is returned as is; otherwise a `Candidates` error is returned; otherwise exactly `max(Count, 0)` full names drawn from the candidates |
| `Generator.NameGenerator.GenerateDefaultNames` | Namer/NameGenerator.cs:74-77 | the call means `GenerateNames(10, "", "", "", "")`; once population succeeds it returns exactly ten names, each a cached first name, a space and a cached surname |
| `Generator.NameGenerator.GenerateCountNames` | Namer/NameGenerator.cs:84-87 | the call means `GenerateNames(Count, "", "", "", "")`; once population succeeds it returns exactly `max(Count, 0)` such names |

## Left out

- HTTP transport: `HttpClient`, `GetAsync`, `EnsureSuccessStatusCode`, stream reading and the two jsDelivr URLs (Namer/NameGenerator.cs:38, 49-52, 57-60) are I/O. They are replaced by the `fetch` parameter, which gives the text of a file or a failure.
- Random distribution: the uniformity of `Random.Next` cannot be stated here. Only its bound is modelled.
- Culture-sensitive comparison: .NET's `StartsWith(string)` and `EndsWith(string)` are culture-sensitive. The model compares plain character sequences.
- Null strings: strings are never null in the model, so `string.IsNullOrEmpty(s)` is `s == ""`. The `ArgumentNullException` a null surname filter would raise under an active name flag is not modelled.
- Generator.ComposeNames: does not model the limits of `List<string>` and of the 32-bit counter. `NamesList.Add` (Namer/NameGenerator.cs:142) throws `OutOfMemoryException` once the list would outgrow the largest array .NET allows for references (2,147,483,591 elements), or sooner when memory runs out, so for a `Count` beyond that the source throws rather than returning `Count` names. The model, on unbounded integers and memory, always returns `max(Count, 0)` names.
- Concurrency: two first calls racing on the static caches are not modelled. The calls are sequential.
- Message text: the wording of the exception messages is not modelled. Only the kind of error and the wrapped cause are.
- Namer.Demo/Program.cs is a console driver that only prints. It calls a gender enumeration and overloads that do not exist in `NameGenerator.cs`, so gender variants, lookups of whole filtered lists and asynchronous forms are not part of this model.
