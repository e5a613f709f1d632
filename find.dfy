/**
 * The byte-string search primitive the scanner relies on: Rust's `str::find`
 * with a string pattern, which returns the byte offset of the leftmost
 * occurrence of the pattern, and `Some(0)` for the empty pattern.
 */
module StrFind {
  import opened Wrappers

  /** A Rust `String`/`&str`, seen as its UTF-8 bytes. */
  type Bytes = seq<bv8>

  /** `needle` occurs in `s` starting at byte offset `i`. */
  predicate OccursAt(s: Bytes, needle: Bytes, i: nat)
  {
    i + |needle| <= |s| && s[i..i + |needle|] == needle
  }

  /** `needle` occurs somewhere in `s`. */
  ghost predicate Contains(s: Bytes, needle: Bytes)
  {
    exists i: nat :: OccursAt(s, needle, i)
  }

  /** No occurrence of `needle` starts in the offsets `lo .. hi-1`. */
  ghost predicate NoOccurrenceIn(s: Bytes, needle: Bytes, lo: nat, hi: nat)
  {
    forall p: nat :: lo <= p < hi ==> !OccursAt(s, needle, p)
  }

  /** No occurrence of `needle` starts at or after offset `lo`. */
  ghost predicate NoOccurrenceFrom(s: Bytes, needle: Bytes, lo: nat)
  {
    forall p: nat :: lo <= p ==> !OccursAt(s, needle, p)
  }

  /** The leftmost occurrence of `needle` at or after offset `k`. */
  function FindFrom(s: Bytes, needle: Bytes, k: nat): (r: Option<nat>)
    ensures r.Some? ==> k <= r.value && OccursAt(s, needle, r.value)
                        && NoOccurrenceIn(s, needle, k, r.value)
    ensures r.None? ==> NoOccurrenceFrom(s, needle, k)
    decreases |s| - k
  {
    if k + |needle| > |s| then None
    else if s[k..k + |needle|] == needle then Some(k)
    else FindFrom(s, needle, k + 1)
  }

  /** `s.find(needle)`: the least offset at which `needle` occurs, if any. */
  function Find(s: Bytes, needle: Bytes): (r: Option<nat>)
    ensures r.Some? ==> OccursAt(s, needle, r.value) && NoOccurrenceIn(s, needle, 0, r.value)
    ensures r.None? <==> !Contains(s, needle)
  {
    FindFrom(s, needle, 0)
  }

  /** An occurrence in the suffix `s[k..]` is an occurrence in `s`, shifted by `k`. */
  lemma OccursInSuffix(s: Bytes, needle: Bytes, k: nat, j: nat)
    requires k <= |s|
    ensures OccursAt(s[k..], needle, j) <==> OccursAt(s, needle, k + j)
  {
    if k + j + |needle| <= |s| {
      assert s[k..][j..j + |needle|] == s[k + j..k + j + |needle|];
    }
  }

  /** `Find` on a suffix of `s` yields the leftmost occurrence in `s` at or after `k`, as a relative offset. */
  lemma {:induction false} FindInSuffix(s: Bytes, needle: Bytes, k: nat)
    requires k <= |s|
    ensures Find(s[k..], needle).Some? ==>
              && OccursAt(s, needle, k + Find(s[k..], needle).value)
              && NoOccurrenceIn(s, needle, k, k + Find(s[k..], needle).value)
    ensures Find(s[k..], needle).None? ==> NoOccurrenceFrom(s, needle, k)
  {
    var r := Find(s[k..], needle);
    if r.Some? {
      OccursInSuffix(s, needle, k, r.value);
      forall p: nat | k <= p < k + r.value ensures !OccursAt(s, needle, p) {
        OccursInSuffix(s, needle, k, p - k);
      }
    } else {
      forall p: nat | k <= p ensures !OccursAt(s, needle, p) {
        OccursInSuffix(s, needle, k, p - k);
      }
    }
  }
}
