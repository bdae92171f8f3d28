# Triathlon results table: a verified model of its processing core

The results table of this triathlon site fetches its race records once, when it mounts. It then processes them in three steps:

1. It keeps only the records whose `total_time` reads as hours below 23, minutes below 60 and seconds below 60.
2. It sorts them in place by `total_time`, compared as strings.
3. It scans every split of every sorted record to find the fastest swim, bike and run. A split is skipped when its time is `"00:00:00"` (not recorded) or the seed `"23:59:59"`, and an earlier holder keeps the record on a tie.

The page then shows one of three things:

- an error alert, when an error is set;
- a loading row, while the request is pending;
- one row per record whose last name contains the search term, letter case ignored.

Each row carries a "Fastest Swim", "Fastest Bike" or "Fastest Run" badge when that discipline's recorded athlete equals the row's full name.

The model is split into Dafny modules, one concept each:

- `Seqs`: order-preserving filtering, the shape of `Array.prototype.filter`.
- `Lex`: the ordinal string order, used for JavaScript `<` on strings and in place of `localeCompare` in the sort (see `Lex.Less` under "## Left out"). It proves that this is a strict total order.
- `TimeCodec`:
  - `split(":")`;
  - `Number` restricted to integers;
  - zero-padded `HH:MM:SS` strings;
  - the theorem that, under zero padding, string order is chronological order.
- `Records`: the record types and the `${first_name} ${last_name}` full name.
- `Validator`: the validity filter.
- `Sorter` has two halves:
  - `SortByTime`, a functional specification of the stable sort, with its proofs: it permutes, it sorts, it is stable, it is idempotent, and every stable sort produces it;
  - an in-place insertion sort on an `array`, proved equal to that specification.
- `Aggregator` has two halves:
  - the fastest-split scan as a fold, `Aggregate`, proved to pick the first minimal qualifying split of each discipline;
  - the nested loop that updates the table, proved equal to the fold.

  `AggregatorExamples` works through the tie and the not-recorded cases.
- `Search`: ASCII lower-casing, substring containment, and the last-name filter.
- `Badges`: the badge test and the table rows.
- `Pipeline`: the component as a class holding its five state fields (`results`, `error`, `fastestTimes`, `loading`, `searchTerm`). Its methods are the state changes and `Render` is the view.

Some of what the code does is easy to miss, and the model keeps it as written:

- `Number("")` is 0 (`src/components/ResultsTable.jsx:48`), so a total time such as `"::"` passes the validator. A signed hour such as `"-1:00:00"` also passes.
- `if (error)` (`src/components/ResultsTable.jsx:91`) treats an empty message as falsy, so an error whose message is empty shows the table, not the alert.
- Inside `processResults`, malformed data throws, for example when an entry of `data` is `null` or its `total_time` is not a string (`src/components/ResultsTable.jsx:46-47`), when a record that passes the filter has no `splits` (`src/components/ResultsTable.jsx:65`), or when one of its splits is `null` (`src/components/ResultsTable.jsx:66`). Such a throw is caught at `src/components/ResultsTable.jsx:36-37`, and the fetch ends in the error alert.
  - In this model, every record is well formed.
  - Such a throw is one way the fetch outcome `Failed(message)` arises.
- The `hours < 23` bound (`src/components/ResultsTable.jsx:49`) is kept exactly as written. `Validator.HourBoundRejects` shows that it rejects `"23:00:00"` and `"23:30:15"`.

I/O and the clock are not modelled. How the request ends is a parameter of `FetchResults`: `Failed(message)`, `NotOk` or `Received(data)`.

## Model

The defining functions `Lex.Less`, `Validator.IsValidTime`, `Validator.IsValid`, `Sorter.SortByTime`, `Aggregator.Entries`, `Search.Contains` and `Pipeline.ResultsTable.FilterResults` carry no contract of their own. Each is pinned down by the rows of the lemmas about it: `Lex.Less` by the `Lex` lemmas, the validator by `Validator.ValidFormatIff` and the `Validator` example lemmas, the sort by `Sorter.SortIsStable` and `Sorter.StableSortIsUnique`, the scan order by `Aggregator.EntriesConcat`, `Aggregator.EntryOrigin` and `Aggregator.EntryOfSplit`, containment by `Search.ContainsIff`, and `FilterResults` by `Search.SearchByLastName`, whose value it is.

| member | source | states |
|---|---|---|
| Records.FullName | src/components/ResultsTable.jsx:74 | the full name is the first name, one space, then the last name, so it is never empty |
| Lex.LessIrreflexive | src/components/ResultsTable.jsx:70 | no time string is less than itself, so an equal split never replaces the recorded one |
| Lex.LessAsymmetric | src/components/ResultsTable.jsx:54 | string order is asymmetric |
| Lex.LessTransitive | src/components/ResultsTable.jsx:54 | string order is transitive |
| Lex.LessTotal | src/components/ResultsTable.jsx:54 | any two different strings are ordered one way or the other, so the comparator is a total order |
| Lex.LessEqTransitive | src/components/ResultsTable.jsx:54 | the not-later relation the sort produces is transitive |
| Lex.LessEqAntisymmetric | src/components/ResultsTable.jsx:54 | two strings, each not later than the other, are equal |
| Lex.LessConcat | src/components/ResultsTable.jsx:54 | concatenations with equal-length first parts compare by the first part, and by the second part only when the first parts are equal |
| TimeCodec.SplitOn | src/components/ResultsTable.jsx:46-47 | `split(":")` yields at least one piece and no piece holds a colon |
| TimeCodec.JoinSplit | src/components/ResultsTable.jsx:46-47 | joining the pieces with ':' gives back the original string |
| TimeCodec.SplitOnAppend | src/components/ResultsTable.jsx:46-47 | splitting `x:y` gives the pieces of x followed by the pieces of y |
| TimeCodec.SplitOnNoSep | src/components/ResultsTable.jsx:46-47 | a string without colons splits into itself alone |
| TimeCodec.ParseNumber | src/components/ResultsTable.jsx:48 | `Number("")` is 0, and a component that starts with a digit and parses is not negative |
| TimeCodec.ParsePad2 | src/components/ResultsTable.jsx:48 | `Number` of a two-digit field is the field's value |
| TimeCodec.SplitFormat | src/components/ResultsTable.jsx:46-48 | a zero-padded `HH:MM:SS` string splits into its three two-digit fields |
| TimeCodec.PaddedIsFormat | src/components/ResultsTable.jsx:54 | every eight-character string of digits with colons at positions 2 and 5 is the zero-padded form of its fields |
| TimeCodec.LessPad2 | src/components/ResultsTable.jsx:54 | two-digit fields compare as strings exactly as their values compare |
| TimeCodec.LessFormatIsChronological | src/components/ResultsTable.jsx:54 | for zero-padded times with minutes and seconds below 60, one string is less than the other iff it is the shorter duration in seconds |
| TimeCodec.UnpaddedMisorders | src/components/ResultsTable.jsx:54 | without padding, string order breaks: "10:00:00" sorts before "9:00:00" |
| Seqs.FilterSpec | src/components/ResultsTable.jsx:45 | a filter keeps an order-preserving subsequence in which every element passes, with each passing element's multiplicity unchanged and every other element removed |
| Validator.ValidResults | src/components/ResultsTable.jsx:45-50 | the kept records are a subsequence of the input; every kept record is valid; a record is kept iff it was in the input and is valid; no occurrence is lost |
| Validator.ValidFormatIff | src/components/ResultsTable.jsx:46-49 | a zero-padded time is valid iff hours < 23, minutes < 60 and seconds < 60 |
| Validator.HourBoundRejects | src/components/ResultsTable.jsx:49 | "23:00:00", "23:30:15" and "25:00:00" are dropped |
| Validator.ValidExamples | src/components/ResultsTable.jsx:49 | "22:59:59" and "01:02:03" are kept |
| Validator.TooFewComponentsRejected | src/components/ResultsTable.jsx:46-49 | a time with fewer than three components is dropped (the missing one is `undefined`) |
| Validator.ExtraComponentsIgnored | src/components/ResultsTable.jsx:46 | components after the third do not affect validity |
| Validator.EmptyComponentsAccepted | src/components/ResultsTable.jsx:48-49 | "::" is kept, because `Number("")` is 0 |
| Validator.NegativeHourAccepted | src/components/ResultsTable.jsx:48-49 | "-1:00:00" is kept, because the sign is part of the number |
| Sorter.InsertPoint | src/components/ResultsTable.jsx:53-55 | the insertion index has every later record strictly after the inserted one and the record before it not after it |
| Sorter.InsertSplices | src/components/ResultsTable.jsx:53-55 | inserting places the record at its insertion index and moves nothing else |
| Sorter.SortPermutes | src/components/ResultsTable.jsx:53 | the sorted list holds exactly the valid records (same multiset) |
| Sorter.SortSorts | src/components/ResultsTable.jsx:53-55 | the sorted list is non-decreasing by total-time string |
| Sorter.SortIsStable | src/components/ResultsTable.jsx:53-55 | for every total time, the records holding it come out in their input order |
| Sorter.SortKeepsSorted | src/components/ResultsTable.jsx:53-55 | a list already in order is left unchanged, ties included |
| Sorter.SortIdempotent | src/components/ResultsTable.jsx:53-55 | sorting the sorted list again changes nothing |
| Sorter.StableSortIsUnique | src/components/ResultsTable.jsx:53-55 | any ordered list with the same per-time subsequences as the input is the sort's result, so any stable sort gives the same output |
| Sorter.InsertAt | src/components/ResultsTable.jsx:53 | a placement with strictly later records after it and a not-later record before it is the insertion |
| Sorter.InsertInPlace | src/components/ResultsTable.jsx:53 | one in-place step inserts `a[i]` into the sorted prefix and leaves the rest of the array unchanged |
| Sorter.SortInPlace | src/components/ResultsTable.jsx:53-55 | the in-place array sort leaves the array holding the stable sort of its old contents |
| Aggregator.Step | src/components/ResultsTable.jsx:66-76 | a split off the allow-list changes nothing; a split changes at most its own discipline's entry; a real split strictly faster than the entry replaces it with the split's own time and athlete; any other split leaves the table unchanged |
| Aggregator.Fold | src/components/ResultsTable.jsx:64-79 | the scan keeps the table's set of disciplines |
| Aggregator.Aggregate | src/components/ResultsTable.jsx:58-79 | the table has exactly the entries swim_time, bike_time and run_time |
| Aggregator.EntriesConcat | src/components/ResultsTable.jsx:64-65 | the scan order is results in order, then each result's splits in order |
| Aggregator.FoldConcat | src/components/ResultsTable.jsx:64-65 | scanning two stretches of splits one after the other is scanning them together |
| Aggregator.EntryOrigin | src/components/ResultsTable.jsx:64-65 | every scanned split comes from some split of some result, with that result's full name |
| Aggregator.EntryOfSplit | src/components/ResultsTable.jsx:64-65 | every split of every result is scanned |
| Aggregator.ScanSplits | src/components/ResultsTable.jsx:65-78 | the inner loop over one result's splits yields the fold over that result's splits |
| Aggregator.FindFastestSplits | src/components/ResultsTable.jsx:58-79 | the nested loops, starting from the seed, yield Aggregate of the sorted results |
| Aggregator.FoldIsFirstMinimum | src/components/ResultsTable.jsx:58-79 | an entry's time is never "00:00:00" and is never above the seed. It is no slower than any qualifying split. It is the seed iff no qualifying split beats "23:59:59". Otherwise it is the time and athlete of the first split with the minimal time |
| Aggregator.AggregateNoSlower | src/components/ResultsTable.jsx:67-71 | the recorded time is no slower than any real split of its discipline in any result |
| Aggregator.NoQualifyingSplitKeepsSeed | src/components/ResultsTable.jsx:58-62 | a discipline without a qualifying split keeps "23:59:59" with athlete "" |
| Aggregator.SentinelOnlyWhenUnset | src/components/ResultsTable.jsx:59-69 | an entry holds "23:59:59" iff it is the untouched seed |
| AggregatorExamples.ZeroSplitExcluded | src/components/ResultsTable.jsx:68 | swim splits "00:30:00", "00:00:00", "00:25:00": the third athlete is fastest and the zero is skipped |
| AggregatorExamples.TieKeepsFirst | src/components/ResultsTable.jsx:70 | two equal swim splits: the first in sorted order keeps the record |
| Search.LowerChar | src/components/ResultsTable.jsx:87 | the result is never an upper-case ASCII letter; upper-case letters move to lower case and every other character is unchanged |
| Search.Lower | src/components/ResultsTable.jsx:87 | the lower-cased string has no upper-case letter left, and a string without upper-case letters is unchanged |
| Search.LowerIdempotent | src/components/ResultsTable.jsx:87 | lower-casing an already lower-cased string changes nothing |
| Search.ContainsIff | src/components/ResultsTable.jsx:87 | `includes` holds iff the term occupies some run of consecutive positions |
| Search.ContainsTransitive | src/components/ResultsTable.jsx:87 | a substring of a substring is a substring |
| Search.ContainsLength | src/components/ResultsTable.jsx:87 | a string never contains a longer one |
| Search.SearchByLastName | src/components/ResultsTable.jsx:85-89 | the shown results are a subsequence of the results. Every shown result matches. A result is shown iff it is in the results and matches. Multiplicities are kept |
| Search.EmptyTermKeepsAll | src/components/ResultsTable.jsx:128-129 | an empty term shows every result in order, so the unfiltered branch and the filtered one agree |
| Search.SearchIgnoresCase | src/components/ResultsTable.jsx:87 | terms that lower-case alike give the same output |
| Search.UpperAndLowerTermsAgree | src/components/ResultsTable.jsx:87 | searching "SMITH" and "smith" gives the same output |
| Search.FirstNameNotConsulted | src/components/ResultsTable.jsx:87 | lists differing only in first names are filtered alike, position by position |
| Search.ExtendingTermNarrows | src/components/ResultsTable.jsx:85-89 | typing more characters only removes rows: the longer term's output is the shorter term's output filtered again |
| Search.TooLongTermFindsNothing | src/components/ResultsTable.jsx:85-89 | a term longer than every last name shows nothing |
| Badges.BadgesOf | src/components/ResultsTable.jsx:141-161 | an untouched seed entry (athlete "") never awards its badge |
| Badges.BadgeHolderSetFastestSplit | src/components/ResultsTable.jsx:72-75 | the badge goes to a name that has, in some result, a real split of that discipline at the recorded time, and no real split of the discipline is faster |
| Badges.Rows | src/components/ResultsTable.jsx:129-142 | one row per shown result, in order. Position is the 1-based index within the shown list. The row copies the result's columns. A badge is shown iff the discipline's athlete equals the full name |
| Badges.AmbiguousNamesShareBadges | src/components/ResultsTable.jsx:141-142 | "Ann Lee" "Smith" and "Ann" "Lee Smith" get the same badges, since only the joined name is compared |
| Pipeline.ProcessedAreValidAndSorted | src/components/ResultsTable.jsx:45-55 | the stored results are valid and in total-time order |
| Pipeline.SortedCopy | src/components/ResultsTable.jsx:53 | sorting the filtered array in place yields the stable sort of the filtered records |
| Pipeline.OutOfRangeHourDropped | src/components/ResultsTable.jsx:45-55 | records with "01:02:03" and "25:00:00": only the first is kept and sorted |
| Pipeline.NoMatchFindsNothingProcessed | src/components/ResultsTable.jsx:85-89 | a term that matches no received record matches none of the processed records |
| Pipeline.NoMatchTermMatchesNothing | src/components/ResultsTable.jsx:87 | "zz-no-match" matches a record only when its lower-cased last name contains "zz-no-match" |
| Pipeline.ResultsTable.constructor | src/components/ResultsTable.jsx:16-20 | the initial state: no results, no error, `{}` for the fastest splits, loading, empty term |
| Pipeline.ResultsTable.ProcessResults | src/components/ResultsTable.jsx:43-83 | results become the sorted valid records and the fastest-split table becomes their aggregate; nothing else changes |
| Pipeline.ResultsTable.FetchResults | src/components/ResultsTable.jsx:26-41 | loading ends whatever the outcome. A non-ok response sets "Failed to fetch results". A throw sets its message and leaves the results as they were. Received records are processed |
| Pipeline.ResultsTable.SetSearchTerm | src/components/ResultsTable.jsx:104 | only the search term changes |
| Pipeline.ResultsTable.Render | src/components/ResultsTable.jsx:91-92 | the alert appears iff the error is a non-empty message, and shows that message followed by the refresh hint. Otherwise the loading row appears while loading, else the rows of the search output |
| Pipeline.NotOkShowsAlert | src/components/ResultsTable.jsx:31-32 | after a non-ok response the page is the alert "Failed to fetch results. Please try refreshing the page." |
| Pipeline.InitiallyLoading | src/components/ResultsTable.jsx:122-127 | before the request ends the loading row is shown |
| Pipeline.EmptyErrorShowsEmptyTable | src/components/ResultsTable.jsx:91 | an error with an empty message is falsy: an empty table is shown, not the alert |
| Pipeline.NoMatchShowsEmptyTable | src/components/ResultsTable.jsx:166 | with records received and the term "zz-no-match" contained in no lower-cased last name, the page shows an empty table, not the alert |

## Left out

- The network request, the HTTP status and JSON decoding are outside the model. How the request ends is the `FetchOutcome` parameter of `FetchResults`.
- Records that are not well-formed objects are outside the model: every `RaceResult` has every field. A `processResults` throw on such data is represented by the `Failed(message)` outcome. Other malformed records do not throw there: a missing `first_name` only makes the name read "undefined ...", and a record dropped by the filter is never scanned.
- A record without `last_name` makes the `useMemo` filter throw during render (`src/components/ResultsTable.jsx:87`). That is outside the try/catch of the fetch, so no alert appears and the page fails; the model has no such record and no render failure.
- React hooks, scheduling, batching and memoisation are outside the model. `useMemo` is modelled only by its value, `FilterResults`, and the effect only by the single `FetchResults` call.
- JSX markup, CSS classes (including the row striping), icons, the heading and the `Alert` component's "Error!" prefix are outside the model. `Screen` holds only the alert's message text or the table body's rows.
- TimeCodec.ParseNumber: models `Number` only on the empty string and on optionally signed decimal digit strings. Whitespace, decimals, exponents, hexadecimal and "Infinity" are all read as NaN here, so a component such as " 1" or "1.5" is rejected where JavaScript would accept it.
- Search.LowerChar: lower-cases only the ASCII letters A-Z, not the full Unicode `toLowerCase`.
- Lex.Less: compares characters as Dafny characters (code points), not as UTF-16 code units, and takes `localeCompare` as ordinal comparison. The two orders agree on strings made only of digits and colons with the colons at the same positions, as in all zero-padded `HH:MM:SS` times. Elsewhere they can differ, and since the sort order decides who wins a tie for a fastest split, so can the badge holder:
  - where a colon meets a digit: the validator accepts unpadded times such as "1:00:00", and the ordinal order puts "10:00:00" before "1:00:00" because '0' comes before ':', while locale collation usually puts punctuation such as ':' before digits;
  - signs: "+1:00:00" and "-1:00:00" both pass the validator; the ordinal order puts '+' first, while locale collation usually puts punctuation such as '-' before symbols such as '+';
  - letters in a fourth or later component, which the validator ignores: "01:02:03:B" comes before "01:02:03:a" in ordinal order, while locale collation compares letters ignoring case first.
- Sorter.SortInPlace: is an insertion sort, not the engine's own `Array.prototype.sort`. `Sorter.StableSortIsUnique` shows that every stable sort gives the same output.
- Field names are written in Dafny style (`firstName`, `totalTime`) rather than as the endpoint's `first_name`, `total_time`.
