/**
 * `GrepConfig` and `SearchResults`: building the configuration from the
 * command-line arguments, and the pass over the file's lines that collects,
 * for every line containing the search string, the offsets where it occurs.
 */
module Grep {
  import opened Wrappers
  import opened StrFind
  import opened Scanner
  import opened IndexMaps

  /** The search string and the name of the file to search, as given on the command line. */
  datatype GrepConfig = GrepConfig(searchString: Bytes, searchFileName: Bytes)

  /** Line number (counted from 1) to the offsets found on that line, in the order lines were scanned. */
  datatype SearchResults = SearchResults(results: IndexMap<nat, seq<nat>>)

  const UsageMessage: string :=
    "Too few argments - Syntax: rust_mini_grep <SEARCH_STRING> <SEARCH_FILE_NAME>"

  /**
   * `GrepConfig::new`: reads the search string from `args[1]` and the file
   * name from `args[2]`; fewer than three arguments is an error.
   */
  function NewConfig(args: seq<Bytes>): (r: Result<GrepConfig, string>)
    ensures r.Failure? <==> |args| < 3
    ensures r.Failure? ==> r.error == UsageMessage
    ensures r.Success? ==> r.value.searchString == args[1] && r.value.searchFileName == args[2]
  {
    if |args| < 3 then Failure(UsageMessage)
    else Success(GrepConfig(args[1], args[2]))
  }

  /**
   * What a scan of `lines` stores: an entry `(n, offsets)` for every line
   * number `n` (from 1) whose line yields offsets, in ascending line order.
   */
  function ExpectedResults(lines: seq<Bytes>, needle: Bytes): IndexMap<nat, seq<nat>>
    requires |needle| > 0 || lines == []
    decreases |lines|
  {
    if lines == [] then []
    else
      var earlier := ExpectedResults(lines[..|lines| - 1], needle);
      var offsets := AllMatches(lines[|lines| - 1], needle);
      if offsets == [] then earlier else earlier + [(|lines|, offsets)]
  }

  /** Line numbers are stored in strictly ascending order, so none repeats. */
  ghost predicate AscendingLineNumbers(r: IndexMap<nat, seq<nat>>)
  {
    forall i, j :: 0 <= i < j < |r| ==> r[i].0 < r[j].0
  }

  /** Every stored line number is one of `1..count`. */
  ghost predicate LineNumbersWithin(r: IndexMap<nat, seq<nat>>, count: nat)
  {
    forall i :: 0 <= i < |r| ==> 1 <= r[i].0 <= count
  }

  /** Every entry is a line of the file with the (non-empty) offsets found on that line. */
  ghost predicate EntriesAreLineMatches(lines: seq<Bytes>, needle: Bytes, r: IndexMap<nat, seq<nat>>)
    requires |needle| > 0
  {
    forall i :: 0 <= i < |r| ==>
      && 1 <= r[i].0 <= |lines|
      && r[i].1 != []
      && r[i].1 == AllMatches(lines[r[i].0 - 1], needle)
  }

  /** Reading one more line adds an entry for it exactly when its scan finds offsets. */
  lemma ResultsAppend(lines: seq<Bytes>, line: Bytes, needle: Bytes)
    requires |needle| > 0
    ensures ExpectedResults(lines + [line], needle)
         == if AllMatches(line, needle) == [] then ExpectedResults(lines, needle)
            else ExpectedResults(lines, needle) + [(|lines| + 1, AllMatches(line, needle))]
  {
    assert (lines + [line])[..|lines|] == lines;
  }

  /** Appending an entry for a line after all stored lines keeps the line numbers ascending. */
  lemma AppendAscending(r: IndexMap<nat, seq<nat>>, n: nat, offsets: seq<nat>)
    requires 1 <= n && AscendingLineNumbers(r) && LineNumbersWithin(r, n - 1)
    ensures AscendingLineNumbers(r + [(n, offsets)]) && LineNumbersWithin(r + [(n, offsets)], n)
  {
  }

  /** The stored line numbers are strictly ascending and are line numbers of the file. */
  lemma {:induction false} ResultsOrdered(lines: seq<Bytes>, needle: Bytes)
    requires |needle| > 0
    ensures AscendingLineNumbers(ExpectedResults(lines, needle))
    ensures LineNumbersWithin(ExpectedResults(lines, needle), |lines|)
    decreases |lines|
  {
    if lines != [] {
      var prefix := lines[..|lines| - 1];
      ResultsOrdered(prefix, needle);
      var earlier := ExpectedResults(prefix, needle);
      var offsets := AllMatches(lines[|lines| - 1], needle);
      if offsets != [] {
        AppendAscending(earlier, |lines|, offsets);
      }
    }
  }

  /** Entries that describe lines of a prefix of the file describe the same lines of the whole file. */
  lemma EntriesExtend(lines: seq<Bytes>, prefix: seq<Bytes>, needle: Bytes, r: IndexMap<nat, seq<nat>>)
    requires |needle| > 0 && lines != [] && prefix == lines[..|lines| - 1]
    requires EntriesAreLineMatches(prefix, needle, r)
    ensures EntriesAreLineMatches(lines, needle, r)
  {
    forall i | 0 <= i < |r|
      ensures 1 <= r[i].0 <= |lines| && r[i].1 != []
      ensures r[i].1 == AllMatches(lines[r[i].0 - 1], needle)
    {
      assert lines[r[i].0 - 1] == prefix[r[i].0 - 1];
    }
  }

  /** Appending the last line's non-empty offsets under its line number keeps every entry a line's offsets. */
  lemma EntriesAppend(lines: seq<Bytes>, needle: Bytes, r: IndexMap<nat, seq<nat>>, offsets: seq<nat>)
    requires |needle| > 0 && lines != [] && EntriesAreLineMatches(lines, needle, r)
    requires offsets != [] && offsets == AllMatches(lines[|lines| - 1], needle)
    ensures EntriesAreLineMatches(lines, needle, r + [(|lines|, offsets)])
  {
  }

  /** The offsets stored under a line number are exactly those of that line, and never empty. */
  lemma {:induction false} ResultsMatchLines(lines: seq<Bytes>, needle: Bytes)
    requires |needle| > 0
    ensures EntriesAreLineMatches(lines, needle, ExpectedResults(lines, needle))
    decreases |lines|
  {
    if lines != [] {
      var prefix := lines[..|lines| - 1];
      ResultsMatchLines(prefix, needle);
      var earlier := ExpectedResults(prefix, needle);
      var offsets := AllMatches(lines[|lines| - 1], needle);
      EntriesExtend(lines, prefix, needle, earlier);
      if offsets != [] {
        EntriesAppend(lines, needle, earlier, offsets);
      }
    }
  }

  /**
   * Looking up line number `n` finds that line's offsets when `n` is a line of
   * the file and the scan of that line found something, and nothing otherwise.
   */
  lemma {:induction false} ResultsLookup(lines: seq<Bytes>, needle: Bytes, n: nat)
    requires |needle| > 0
    ensures Get(ExpectedResults(lines, needle), n)
         == if 1 <= n <= |lines| && AllMatches(lines[n - 1], needle) != []
            then Some(AllMatches(lines[n - 1], needle))
            else None
    decreases |lines|
  {
    if lines != [] {
      var prefix := lines[..|lines| - 1];
      var earlier := ExpectedResults(prefix, needle);
      var offsets := AllMatches(lines[|lines| - 1], needle);
      ResultsLookup(prefix, needle, n);
      ResultsLookup(prefix, needle, |lines|);
      if 1 <= n < |lines| {
        assert lines[n - 1] == prefix[n - 1];
      }
      if offsets != [] {
        GetAppend<nat, seq<nat>>(earlier, |lines|, offsets, n);
      }
    }
  }

  /** Line `n` has an entry exactly when it is a line of the file and contains the search string. */
  lemma ResultsHaveMatchingLines(lines: seq<Bytes>, needle: Bytes, n: nat)
    requires |needle| > 0
    ensures Get(ExpectedResults(lines, needle), n).Some?
            <==> 1 <= n <= |lines| && Contains(lines[n - 1], needle)
  {
    ResultsLookup(lines, needle, n);
    if 1 <= n <= |lines| {
      AllMatchesEmptyIff(lines[n - 1], needle);
    }
  }

  /**
   * `GrepConfig::grep` on the lines of the file (numbered from 1): scan each
   * line and insert its offsets under its line number when there are any.
   * An empty search string makes the scan of the first line loop forever, so
   * it is allowed only for a file without lines.
   */
  method Grep(config: GrepConfig, lines: seq<Bytes>) returns (r: SearchResults)
    requires |config.searchString| > 0 || lines == []
    ensures r.results == ExpectedResults(lines, config.searchString)
  {
    var needle := config.searchString;
    var resultsMap: IndexMap<nat, seq<nat>> := [];
    for i := 0 to |lines|
      invariant resultsMap == ExpectedResults(lines[..i], needle)
    {
      var lineNumber: nat := i + 1;
      var indexesVector := ScanLine(lines[i], needle);
      assert lines[..i + 1][..i] == lines[..i];
      if |indexesVector| > 0 {
        ResultsLookup(lines[..i], needle, lineNumber);
        resultsMap := Insert(resultsMap, lineNumber, indexesVector);
      }
    }
    assert lines[..|lines|] == lines;
    r := SearchResults(resultsMap);
  }
}
