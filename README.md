# rust_mini_grep in Dafny

This project models the library part of `rust_mini_grep`, a small grep. It is
given a search string and a file name. It reports every line that contains the
search string, together with the byte offsets of the occurrences in that line.

The model covers these parts of `src/lib.rs`:

- **`GrepConfig::new`** (`Grep.NewConfig`) turns the argument list into a
  configuration. With fewer than three arguments it fails with the usage
  message.
- **The per-line scan loop** of `GrepConfig::grep` (`Scanner.ScanLine`). It is
  an imperative method with the loop's own variables: the remaining slice,
  `current_index` and `previous_index`. It is proved to return
  `Scanner.AllMatches`: the leftmost, greedy, non-overlapping occurrences.
  That function is shown equal to an independent description,
  `Scanner.IsGreedyScan`, and to be the only sequence meeting it.
- **The aggregation in `GrepConfig::grep`** (`Grep.Grep`). It is a loop over
  the lines, numbered from 1. It inserts a line's offsets into an insertion-
  ordered map only when there are some. It is proved to build
  `Grep.ExpectedResults`. Lemmas about that function show three things:
  - the line numbers ascend;
  - every stored vector is the non-empty scan of its own line;
  - a line has an entry exactly when it contains the search string.
- **`SearchResults::concatenate_indexes`** (`Format.ConcatenateIndexes`). It
  pushes each offset and then ", ", and finally trims the trailing separators.
  It is proved to return `Format.Joined`: the offsets in decimal, separated by
  ", ", with nothing trailing. `Format.JoinedRoundTrip` shows that the text can
  be read back into exactly the same offsets.

Supporting modules:

- `StrFind` models `str::find` with a string pattern. It returns the least
  offset where the pattern occurs, and `Some(0)` for an empty pattern.
- `IndexMaps` models `indexmap::IndexMap`'s `insert` and `get` over a sequence
  of entries kept in insertion order.
- `Scenarios` proves the results for a three-line example file.

Strings the program searches are modelled as their UTF-8 bytes (`seq<bv8>`).
Offsets are byte offsets, as in Rust.

## Model

| member | source | states |
|---|---|---|
| StrFind.FindFrom | src/lib.rs:38 | the result, if any, is an occurrence at or after the start offset with none before it; no result means no occurrence from the start offset on |
| StrFind.Find | src/lib.rs:38 | `find` returns the leftmost occurrence; it returns nothing exactly when the string does not occur |
| StrFind.OccursInSuffix | src/lib.rs:37-38 | an occurrence at offset j of the slice `line[k..]` is an occurrence at offset k + j of the line, and conversely |
| StrFind.FindInSuffix | src/lib.rs:37-38 | `find` on the slice `line[k..]` gives the leftmost occurrence in the line at or after k, relative to k; no result means none at or after k |
| Scanner.MatchesFromStep | src/lib.rs:37-44 | one loop step: the first recorded offset is the leftmost occurrence from the resume point, and the rest are recorded from just past that match |
| Scanner.MatchesAreOccurrences | src/lib.rs:38-40 | every recorded offset is a real occurrence of the search string, at or after the resume point |
| Scanner.MatchesDisjoint | src/lib.rs:40-42 | recorded occurrences never overlap: each starts at or after the end of every earlier one, so the offsets strictly increase |
| Scanner.MatchesComplete | src/lib.rs:36-46 | no occurrence is skipped, except the ones that overlap a recorded match |
| Scanner.GreedyScanTail | src/lib.rs:40-42 | dropping the first entry of a greedy scan leaves a greedy scan from the end of that match |
| Scanner.GreedyScanHead | src/lib.rs:38-44 | any greedy scan agrees with the loop's result on being empty and on its first offset |
| Scanner.GreedyScanIsScan | src/lib.rs:36-46 | any sequence meeting the greedy-scan description equals the offsets the loop records |
| Scanner.GreedyScanIsUnique | src/lib.rs:36-46 | the loop's offsets meet the greedy-scan description, and they are the only sequence that does |
| Scanner.AllMatchesEmptyIff | src/lib.rs:44-47 | a line yields no offsets exactly when it does not contain the search string |
| Scanner.SliceAdvance | src/lib.rs:37 | re-slicing the remaining slice past a match gives the line's suffix from the new `previous_index` |
| Scanner.MatchesAdvance | src/lib.rs:39-42 | recording a hit and resuming past the match moves that offset from the ones still to find to the ones found |
| Scanner.ScanAdvance | src/lib.rs:37-43 | a successful iteration keeps the loop invariant: the slice equals `line[previous_index..]`, and the recorded offsets plus those still to find are all the line's offsets |
| Scanner.ScanStop | src/lib.rs:44 | when `find` fails on the remaining slice, every offset of the line has been recorded |
| Scanner.ScanLine | src/lib.rs:32-46 | the loop terminates for a non-empty search string and returns exactly the leftmost greedy non-overlapping offsets of the line |
| Scanner.EmptyNeedleNeverBreaks | src/lib.rs:36-46 | with an empty search string, `find` returns offset 0 and the slice, `current_index` and `previous_index` come back unchanged, so the loop never breaks |
| IndexMaps.Get | src/lib.rs:48 | a lookup finds a value exactly when the key has an entry, and the value found is stored with that key |
| IndexMaps.Insert | src/lib.rs:48 | `insert` appends a new key at the end, keeps a present key in place, maps the key to the new value, and leaves every other key's value alone |
| IndexMaps.GetAppend | src/lib.rs:48 | after appending an entry, lookups of earlier keys are unchanged, and the new key maps to its value |
| Grep.NewConfig | src/lib.rs:14-24 | it fails exactly when there are fewer than three arguments, with the usage message; otherwise the search string is argument 1 and the file name is argument 2 |
| Grep.ResultsAppend | src/lib.rs:31-49 | one more line adds an entry under its line number exactly when its scan finds offsets |
| Grep.AppendAscending | src/lib.rs:31-48 | adding an entry for a line after all stored lines keeps the line numbers ascending |
| Grep.ResultsOrdered | src/lib.rs:31-50 | stored line numbers strictly ascend and lie between 1 and the number of lines |
| Grep.EntriesExtend | src/lib.rs:31-49 | entries that describe lines of a prefix of the file still describe those lines of the whole file |
| Grep.EntriesAppend | src/lib.rs:47-48 | adding the last line's non-empty offsets under its number keeps every entry the scan of its own line |
| Grep.ResultsMatchLines | src/lib.rs:31-50 | every stored vector is non-empty and is exactly the scan of the line it is stored under |
| Grep.ResultsLookup | src/lib.rs:31-50 | looking up line n gives that line's offsets when n is a line of the file with offsets, and nothing otherwise |
| Grep.ResultsHaveMatchingLines | src/lib.rs:31-50 | line n has an entry exactly when it is a line of the file that contains the search string |
| Grep.Grep | src/lib.rs:26-57 | the loop over the lines builds exactly the expected results, so the properties above hold for what `grep` returns |
| Format.DigitChar | src/lib.rs:77 | a digit value becomes a decimal digit character, and it is '0' only for zero |
| Format.DigitValue | src/lib.rs:77 | reading a digit character gives the value that writes it |
| Format.Decimal | src/lib.rs:77 | `to_string` of an offset is a non-empty run of decimal digits with no leading zero |
| Format.DecimalRoundTrip | src/lib.rs:77 | reading back the written digits gives the offset again |
| Format.Joined | src/lib.rs:73-85 | the joined text is empty exactly when there are no offsets; otherwise it starts and ends with a digit |
| Format.JoinedAppend | src/lib.rs:76-79 | appending an offset to a non-empty list appends ", " and its digits to the joined text |
| Format.TerminatedIsJoined | src/lib.rs:76-79 | for a non-empty list, the loop's text is the joined text followed by one ", " |
| Format.TrimEndMatches | src/lib.rs:80-82 | `trim_end_matches` returns a prefix of its input that no longer ends with the pattern, and what it removed is a whole number of copies of the pattern |
| Format.RepeatOnceMore | src/lib.rs:80-82 | removing one more trailing copy of the pattern adds one to the number of copies removed |
| Format.TrimSeparator | src/lib.rs:80-82 | trimming text that ends in a digit and one ", " removes exactly that separator |
| Format.ConcatenateIndexes | src/lib.rs:73-85 | the result is "" for no offsets, and otherwise the decimals joined by ", " with no trailing separator |
| Format.FieldsOfDecimal | src/lib.rs:76-79 | a run of digits followed by ", " reads back as one field |
| Format.JoinedRoundTrip | src/lib.rs:73-85 | parsing the returned text gives back exactly the offsets it was built from, in order |
| Scenarios.StartsWithFirstByte | src/lib.rs:38 | an occurrence starts with the search string's first byte |
| Scenarios.FooBarFooOffsets | src/lib.rs:32-46 | "foo" occurs in "foo bar foo" at offsets 0 and 8 |
| Scenarios.BazOffsets | src/lib.rs:32-46 | "foo" does not occur in "baz" |
| Scenarios.UpperFooBazFooOffsets | src/lib.rs:32-46 | "foo" occurs in "FOO baz foo" only at offset 8 |
| Scenarios.ThreeLineFile | src/lib.rs:31-50 | for that three-line file the results are line 1 with [0, 8], then line 3 with [8] |

## Left out

- Reading the file (`fs::read_to_string` and its `?` error path) is I/O. `Grep.Grep` takes the file's lines as a parameter instead.
- Splitting the text into lines with `str::lines` is not modelled. The lines are taken as given.
- `SearchResults::print_grep_output` only prints each entry's line number, the configuration and `concatenate_indexes` of its offsets. The printing is I/O and is not modelled. `concatenate_indexes` itself is modelled.
- `src/main.rs` (argument collection, exit codes and printing) is not part of this model.
- Grep.Grep: line numbers are `nat`, not the source's `i32` counter, and offsets are `nat`, not `usize`. So the model does not capture overflow after 2^31 - 1 lines.
- Strings are byte sequences, so the UTF-8 char-boundary checks of Rust's slicing are not modelled. A match always ends on a char boundary when the search string is valid UTF-8.
- Scanner.ScanLine: requires a non-empty search string. With an empty one, `find` returns offset 0 on every pass, so the slice, `current_index` and `previous_index` never change (`Scanner.EmptyNeedleNeverBreaks`). Meanwhile a copy of `previous_index` is pushed on every iteration. The loop therefore never breaks, and the vector grows until allocation fails. The growing vector is not modelled. `Grep.Grep` likewise requires a non-empty search string unless the file has no lines.
- `src/lib.rs` has no guard for an empty search string and no case-insensitive mode, and it stores only offsets, not the line text. The model follows it.
- The inner scan loop is written as its own method, `Scanner.ScanLine`, called once per line from `Grep.Grep`. It keeps the source's variables and steps.
- The value `IndexMap::insert` returns (the previous value) is ignored by the source, and the model drops it too.
- The unit test module contains only a placeholder test with no assertion, so there is nothing from it to model.
