/**
 * The per-line occurrence scanner of `GrepConfig::grep`: for one line it
 * records every occurrence of the search string, read left to right and
 * never overlapping, as absolute byte offsets into the line.
 */
module Scanner {
  import opened Wrappers
  import opened StrFind

  /**
   * The offsets the scan records from offset `k` on: search the remaining
   * slice `line[k..]`, record the hit as an absolute offset, and resume
   * right after the whole match.
   */
  function MatchesFrom(line: Bytes, needle: Bytes, k: nat): seq<nat>
    requires |needle| > 0 && k <= |line|
    decreases |line| - k
  {
    match Find(line[k..], needle)
    case None => []
    case Some(i) => [k + i] + MatchesFrom(line, needle, k + i + |needle|)
  }

  /** The leftmost-greedy, non-overlapping occurrences of `needle` in `line`. */
  function AllMatches(line: Bytes, needle: Bytes): seq<nat>
    requires |needle| > 0
  {
    MatchesFrom(line, needle, 0)
  }

  /** Every entry of `m` is an occurrence of `needle` at or after offset `k`. */
  ghost predicate OccurrencesFrom(line: Bytes, needle: Bytes, k: nat, m: seq<nat>)
  {
    forall i :: 0 <= i < |m| ==> k <= m[i] && OccursAt(line, needle, m[i])
  }

  /** Each entry of `m` starts at or after the end of the match at every earlier entry. */
  ghost predicate NonOverlapping(needle: Bytes, m: seq<nat>)
  {
    forall i, j :: 0 <= i < j < |m| ==> m[i] + |needle| <= m[j]
  }

  /**
   * No occurrence is skipped by the scan whose entries are `m`, starting at
   * `k`: none starts before the first entry, and the same holds again from the
   * end of that entry on; with no entries left, none starts at or after `k`.
   */
  ghost predicate GapsClear(line: Bytes, needle: Bytes, k: nat, m: seq<nat>)
    decreases |m|
  {
    if m == [] then NoOccurrenceFrom(line, needle, k)
    else NoOccurrenceIn(line, needle, k, m[0]) && GapsClear(line, needle, m[0] + |needle|, m[1..])
  }

  /**
   * An independent description of the scan's result from offset `k`: every
   * entry is an occurrence at or after `k`, each entry starts at or after the
   * end of every earlier one, and no occurrence starts before the first
   * entry, between the end of one entry and the start of the next, or after
   * the end of the last one.
   */
  ghost predicate IsGreedyScan(line: Bytes, needle: Bytes, k: nat, m: seq<nat>)
  {
    OccurrencesFrom(line, needle, k, m) && NonOverlapping(needle, m) && GapsClear(line, needle, k, m)
  }

  /** One step of `MatchesFrom`, in terms of occurrences in the whole line. */
  lemma MatchesFromStep(line: Bytes, needle: Bytes, k: nat, m: seq<nat>)
    requires |needle| > 0 && k <= |line| && m == MatchesFrom(line, needle, k)
    ensures m == [] ==> NoOccurrenceFrom(line, needle, k)
    ensures m != [] ==> k <= m[0] && OccursAt(line, needle, m[0]) && NoOccurrenceIn(line, needle, k, m[0])
    ensures m != [] ==> m[1..] == MatchesFrom(line, needle, m[0] + |needle|)
  {
    FindInSuffix(line, needle, k);
  }

  /** Every recorded offset marks a real occurrence at or after `k`, ending within the line. */
  lemma {:induction false} MatchesAreOccurrences(line: Bytes, needle: Bytes, k: nat)
    requires |needle| > 0 && k <= |line|
    ensures OccurrencesFrom(line, needle, k, MatchesFrom(line, needle, k))
    decreases |line| - k
  {
    var m := MatchesFrom(line, needle, k);
    MatchesFromStep(line, needle, k, m);
    if m != [] {
      var rest := m[1..];
      MatchesAreOccurrences(line, needle, m[0] + |needle|);
      forall a | 0 < a < |m| ensures k <= m[a] && OccursAt(line, needle, m[a]) {
        assert m[a] == rest[a - 1];
      }
    }
  }

  /** Recorded offsets never overlap: each later one starts at or after the end of every earlier match. */
  lemma {:induction false} MatchesDisjoint(line: Bytes, needle: Bytes, k: nat)
    requires |needle| > 0 && k <= |line|
    ensures NonOverlapping(needle, MatchesFrom(line, needle, k))
    decreases |line| - k
  {
    var m := MatchesFrom(line, needle, k);
    MatchesFromStep(line, needle, k, m);
    if m != [] {
      var k' := m[0] + |needle|;
      var rest := m[1..];
      MatchesDisjoint(line, needle, k');
      MatchesAreOccurrences(line, needle, k');
      forall a, b | 0 <= a < b < |m| ensures m[a] + |needle| <= m[b] {
        assert m[b] == rest[b - 1];
        if a > 0 {
          assert m[a] == rest[a - 1];
        }
      }
    }
  }

  /** The scan misses no occurrence that does not overlap an earlier recorded match. */
  lemma {:induction false} MatchesComplete(line: Bytes, needle: Bytes, k: nat)
    requires |needle| > 0 && k <= |line|
    ensures GapsClear(line, needle, k, MatchesFrom(line, needle, k))
    decreases |line| - k
  {
    var m := MatchesFrom(line, needle, k);
    MatchesFromStep(line, needle, k, m);
    if m != [] {
      MatchesComplete(line, needle, m[0] + |needle|);
    }
  }

  /** Splitting a greedy scan after its first entry leaves a greedy scan from the end of that entry. */
  lemma GreedyScanTail(line: Bytes, needle: Bytes, k: nat, m: seq<nat>)
    requires IsGreedyScan(line, needle, k, m) && m != []
    ensures IsGreedyScan(line, needle, m[0] + |needle|, m[1..])
  {
    var k' := m[0] + |needle|;
    var tail := m[1..];
    forall a | 0 <= a < |tail| ensures k' <= tail[a] && OccursAt(line, needle, tail[a]) {
      assert tail[a] == m[a + 1];
    }
    forall a, b | 0 <= a < b < |tail| ensures tail[a] + |needle| <= tail[b] {
      assert tail[a] == m[a + 1] && tail[b] == m[b + 1];
    }
  }

  /** A greedy scan and the scan's own result from the same offset agree on being empty and on their first entry. */
  lemma GreedyScanHead(line: Bytes, needle: Bytes, k: nat, m: seq<nat>, s: seq<nat>)
    requires |needle| > 0 && k <= |line| && s == MatchesFrom(line, needle, k)
    requires IsGreedyScan(line, needle, k, m)
    ensures m == [] <==> s == []
    ensures m != [] && s != [] ==> m[0] == s[0]
  {
    MatchesFromStep(line, needle, k, s);
    if m != [] {
      assert OccursAt(line, needle, m[0]);
    }
    if s != [] {
      assert OccursAt(line, needle, s[0]);
    }
    if m != [] && s != [] {
      assert !OccursAt(line, needle, m[0]) || !(m[0] < s[0]);
      assert !OccursAt(line, needle, s[0]) || !(s[0] < m[0]);
    }
  }

  /** Two non-empty sequences with the same first entry and the same remainder are equal. */
  lemma SameHeadAndTail(m: seq<nat>, s: seq<nat>)
    requires m != [] && s != [] && m[0] == s[0] && m[1..] == s[1..]
    ensures m == s
  {
    assert m == [m[0]] + m[1..];
    assert s == [s[0]] + s[1..];
  }

  /** Any greedy scan from `k` is the one the scan computes. */
  lemma {:induction false} GreedyScanIsScan(line: Bytes, needle: Bytes, k: nat, m: seq<nat>)
    requires |needle| > 0 && k <= |line|
    requires IsGreedyScan(line, needle, k, m)
    ensures m == MatchesFrom(line, needle, k)
    decreases |line| - k
  {
    var s := MatchesFrom(line, needle, k);
    GreedyScanHead(line, needle, k, m, s);
    if s != [] {
      MatchesFromStep(line, needle, k, s);
      GreedyScanTail(line, needle, k, m);
      GreedyScanIsScan(line, needle, m[0] + |needle|, m[1..]);
      SameHeadAndTail(m, s);
    }
  }

  /** What the scan computes is exactly the greedy scan described by `IsGreedyScan`, and nothing else is. */
  lemma GreedyScanIsUnique(line: Bytes, needle: Bytes, k: nat, m: seq<nat>)
    requires |needle| > 0 && k <= |line|
    ensures IsGreedyScan(line, needle, k, m) <==> m == MatchesFrom(line, needle, k)
  {
    MatchesAreOccurrences(line, needle, k);
    MatchesDisjoint(line, needle, k);
    MatchesComplete(line, needle, k);
    if IsGreedyScan(line, needle, k, m) {
      GreedyScanIsScan(line, needle, k, m);
    }
  }

  /** A line yields no offsets exactly when the search string does not occur in it. */
  lemma AllMatchesEmptyIff(line: Bytes, needle: Bytes)
    requires |needle| > 0
    ensures AllMatches(line, needle) == [] <==> !Contains(line, needle)
  {
    var m := AllMatches(line, needle);
    MatchesFromStep(line, needle, 0, m);
    if m != [] {
      assert OccursAt(line, needle, m[0]);
    }
  }

  /**
   * One iteration of the scan loop in which `find` succeeds keeps the loop's
   * invariant: the hit is recorded as an absolute offset, and the slice past
   * the match is the suffix of the line from the new `previous_index`, from
   * which the offsets still to record are `MatchesFrom(line, needle, previousIndex)`.
   */
  lemma ScanAdvance(line: Bytes, needle: Bytes, current: Bytes, start: nat, before: seq<nat>,
                    index: nat, currentIndex: nat, previousIndex: nat, indexes: seq<nat>)
    requires |needle| > 0 && start <= |line| && current == line[start..]
    requires before + MatchesFrom(line, needle, start) == AllMatches(line, needle)
    requires Find(current, needle) == Some(index)
    requires indexes == before + [start + index]
    requires currentIndex == index + |needle| && previousIndex == start + currentIndex
    ensures previousIndex <= |line| && currentIndex <= |current|
    ensures current[currentIndex..] == line[previousIndex..]
    ensures indexes + MatchesFrom(line, needle, previousIndex) == AllMatches(line, needle)
  {
    SliceAdvance(line, start, currentIndex, previousIndex);
    MatchesAdvance(line, needle, start, before, index, previousIndex);
  }

  /** Slicing a suffix of `line` again gives a later suffix of `line`. */
  lemma SliceAdvance(line: Bytes, start: nat, skip: nat, next: nat)
    requires next == start + skip <= |line|
    ensures line[start..][skip..] == line[next..]
  {
  }

  /** Recording the hit `find` returns on `line[start..]` moves it from the offsets still to record to those recorded. */
  lemma MatchesAdvance(line: Bytes, needle: Bytes, start: nat, before: seq<nat>, index: nat, next: nat)
    requires |needle| > 0 && start <= |line|
    requires before + MatchesFrom(line, needle, start) == AllMatches(line, needle)
    requires Find(line[start..], needle) == Some(index) && next == start + index + |needle|
    ensures next <= |line|
    ensures before + [start + index] + MatchesFrom(line, needle, next) == AllMatches(line, needle)
  {
    var rest := MatchesFrom(line, needle, next);
    assert MatchesFrom(line, needle, start) == [start + index] + rest;
    assert before + [start + index] + rest == before + ([start + index] + rest);
  }

  /** When `find` fails on the remaining slice, every offset has been recorded. */
  lemma ScanStop(line: Bytes, needle: Bytes, current: Bytes, start: nat, indexes: seq<nat>)
    requires |needle| > 0 && start <= |line| && current == line[start..]
    requires indexes + MatchesFrom(line, needle, start) == AllMatches(line, needle)
    requires Find(current, needle) == None
    ensures indexes == AllMatches(line, needle)
  {
    assert MatchesFrom(line, needle, start) == [];
  }

  /**
   * The inner `loop` of `GrepConfig::grep` for one line: slice the remaining
   * text, `find` the search string in it, record the hit as an absolute
   * offset and jump past the whole match; stop when `find` fails.
   */
  method ScanLine(line: Bytes, needle: Bytes) returns (indexes: seq<nat>)
    requires |needle| > 0
    ensures indexes == AllMatches(line, needle)
  {
    indexes := [];
    var current: Bytes := line;
    var currentIndex: nat := 0;
    var previousIndex: nat := 0;
    while true
      invariant previousIndex <= |line| && currentIndex <= |current|
      invariant current[currentIndex..] == line[previousIndex..]
      invariant indexes + MatchesFrom(line, needle, previousIndex) == AllMatches(line, needle)
      decreases |line| - previousIndex
    {
      current := current[currentIndex..];
      ghost var start, before := previousIndex, indexes;
      match Find(current, needle) {
        case Some(index) =>
          indexes := indexes + [previousIndex + index];
          currentIndex := index + |needle|;
          previousIndex := previousIndex + currentIndex;
          ScanAdvance(line, needle, current, start, before, index, currentIndex, previousIndex, indexes);
        case None =>
          ScanStop(line, needle, current, start, indexes);
          break;
      }
    }
  }

  /**
   * With an empty search string the loop never breaks: `find` succeeds at
   * offset 0 on every slice, so the slice, `current_index` and
   * `previous_index` come back unchanged after each iteration (while the
   * offset vector gains one more entry on every pass).
   */
  lemma EmptyNeedleNeverBreaks(current: Bytes, needle: Bytes, previousIndex: nat)
    requires needle == []
    ensures Find(current, needle) == Some(0)
    ensures 0 + |needle| == 0 && current[0 + |needle|..] == current
    ensures previousIndex + (0 + |needle|) == previousIndex
  {
    assert OccursAt(current, needle, 0);
  }
}
