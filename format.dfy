/**
 * `SearchResults::concatenate_indexes`: the offsets of one line written out
 * in decimal and separated by ", ", as shown in the output line for it.
 */
module Format {
  import opened Wrappers

  const Separator: string := ", "

  predicate IsDigit(c: char)
  {
    '0' <= c <= '9'
  }

  /** A non-empty string of decimal digits. */
  predicate IsDecimal(t: string)
  {
    |t| >= 1 && forall i :: 0 <= i < |t| ==> IsDigit(t[i])
  }

  function DigitChar(d: nat): (c: char)
    requires d < 10
    ensures IsDigit(c) && (c == '0' <==> d == 0)
  {
    (('0' as int) + d) as char
  }

  function DigitValue(c: char): (d: nat)
    requires IsDigit(c)
    ensures d < 10 && DigitChar(d) == c
  {
    (c as int) - ('0' as int)
  }

  /** `usize::to_string`: the decimal digits of `n`, most significant first, without leading zeros. */
  function Decimal(n: nat): (r: string)
    ensures IsDecimal(r)
    ensures n < 10 ==> |r| == 1
    ensures r[0] == '0' ==> n == 0
    decreases n
  {
    if n < 10 then [DigitChar(n)] else Decimal(n / 10) + [DigitChar(n % 10)]
  }

  /** The number a string of decimal digits denotes. */
  function ParseDecimal(t: string): nat
    requires forall i :: 0 <= i < |t| ==> IsDigit(t[i])
    decreases |t|
  {
    if t == [] then 0 else 10 * ParseDecimal(t[..|t| - 1]) + DigitValue(t[|t| - 1])
  }

  /** Reading back what `Decimal` writes gives the number again. */
  lemma {:induction false} DecimalRoundTrip(n: nat)
    ensures ParseDecimal(Decimal(n)) == n
    decreases n
  {
    if n >= 10 {
      var d := Decimal(n);
      assert d[..|d| - 1] == Decimal(n / 10);
      DecimalRoundTrip(n / 10);
    }
  }

  /**
   * What `concatenate_indexes` returns: nothing for no offsets, otherwise the
   * offsets in decimal, in order, separated by ", ".
   */
  function Joined(indexes: seq<nat>): (r: string)
    ensures r == "" <==> indexes == []
    ensures r != "" ==> IsDigit(r[0]) && IsDigit(r[|r| - 1])
    decreases |indexes|
  {
    if |indexes| == 0 then ""
    else if |indexes| == 1 then Decimal(indexes[0])
    else Decimal(indexes[0]) + Separator + Joined(indexes[1..])
  }

  /** What the loop of `concatenate_indexes` has built: every offset followed by ", ". */
  function Terminated(indexes: seq<nat>): string
    decreases |indexes|
  {
    if indexes == [] then ""
    else Terminated(indexes[..|indexes| - 1]) + Decimal(indexes[|indexes| - 1]) + Separator
  }

  /** Appending an offset to a non-empty list appends a separator and its digits to the joined text. */
  lemma {:induction false} JoinedAppend(indexes: seq<nat>, x: nat)
    requires indexes != []
    ensures Joined(indexes + [x]) == Joined(indexes) + Separator + Decimal(x)
    decreases |indexes|
  {
    if |indexes| > 1 {
      assert (indexes + [x])[1..] == indexes[1..] + [x];
      JoinedAppend(indexes[1..], x);
    }
  }

  /** Before trimming, the loop's text is the joined text with one trailing separator. */
  lemma {:induction false} TerminatedIsJoined(indexes: seq<nat>)
    requires indexes != []
    ensures Terminated(indexes) == Joined(indexes) + Separator
    decreases |indexes|
  {
    var init := indexes[..|indexes| - 1];
    var last := indexes[|indexes| - 1];
    assert init + [last] == indexes;
    if init != [] {
      TerminatedIsJoined(init);
      JoinedAppend(init, last);
      calc {
        Terminated(indexes);
        Terminated(init) + Decimal(last) + Separator;
        Joined(init) + Separator + Decimal(last) + Separator;
        Joined(init + [last]) + Separator;
      }
    } else {
      assert Terminated(indexes) == Decimal(last) + Separator;
    }
  }

  predicate EndsWith(s: string, suffix: string)
  {
    |suffix| <= |s| && s[|s| - |suffix|..] == suffix
  }

  /** `k` copies of `pat`, one after another. */
  ghost function Repeat(pat: string, k: nat): string
  {
    if k == 0 then "" else Repeat(pat, k - 1) + pat
  }

  /**
   * `str::trim_end_matches`: remove `pat` from the end of `s` for as long as
   * `s` ends with it. What is removed is a whole number of copies of `pat`.
   */
  function TrimEndMatches(s: string, pat: string): (r: string)
    requires |pat| > 0
    ensures |r| <= |s| && r == s[..|r|]
    ensures !EndsWith(r, pat)
    ensures exists k: nat :: s == r + Repeat(pat, k)
    decreases |s|
  {
    if EndsWith(s, pat) then
      var r := TrimEndMatches(s[..|s| - |pat|], pat);
      ghost var k: nat :| s[..|s| - |pat|] == r + Repeat(pat, k);
      RepeatOnceMore(s, pat, r, k);
      r
    else
      assert s == s + Repeat(pat, 0);
      s
  }

  /** If `s` minus one trailing `pat` is `r` followed by `k` copies, then `s` is `r` followed by `k + 1`. */
  lemma RepeatOnceMore(s: string, pat: string, r: string, k: nat)
    requires EndsWith(s, pat) && s[..|s| - |pat|] == r + Repeat(pat, k)
    ensures s == r + Repeat(pat, k + 1)
  {
    assert s == s[..|s| - |pat|] + pat;
  }

  /** Trimming a text that ends in a digit plus one separator removes exactly that separator. */
  lemma TrimSeparator(x: string)
    requires x != "" && IsDigit(x[|x| - 1])
    ensures TrimEndMatches(x + Separator, Separator) == x
  {
    assert EndsWith(x + Separator, Separator);
    assert (x + Separator)[..|x|] == x;
  }

  /**
   * `concatenate_indexes`: push each offset's digits and ", " onto the
   * string, then trim the separators off its end.
   */
  method ConcatenateIndexes(indexes: seq<nat>) returns (s: string)
    ensures s == Joined(indexes)
  {
    s := "";
    if |indexes| > 0 {
      for i := 0 to |indexes|
        invariant s == Terminated(indexes[..i])
      {
        s := s + Decimal(indexes[i]);
        s := s + Separator;
        assert indexes[..i + 1][..i] == indexes[..i];
      }
      assert indexes[..|indexes|] == indexes;
      TerminatedIsJoined(indexes);
      TrimSeparator(Joined(indexes));
      s := TrimEndMatches(s, Separator);
    }
  }

  /**
   * Splits `s` at each ", " (read as a comma and the character after it): the
   * reading side of the format, used to show the written offsets can be
   * recovered.
   */
  function Fields(s: string): (r: seq<string>)
    ensures |r| >= 1
    decreases |s|
  {
    if s == [] then [""]
    else if s[0] == ',' then [""] + Fields(if |s| >= 2 then s[2..] else [])
    else
      var rest := Fields(s[1..]);
      [[s[0]] + rest[0]] + rest[1..]
  }

  /** Reads every field as a decimal number; `None` if some field is not one. */
  function ParseFields(fields: seq<string>): Option<seq<nat>>
    decreases |fields|
  {
    if fields == [] then Some([])
    else if !IsDecimal(fields[0]) then None
    else match ParseFields(fields[1..])
      case None => None
      case Some(rest) => Some([ParseDecimal(fields[0])] + rest)
  }

  /** Reads a text written by `concatenate_indexes` back into offsets. */
  function ParseIndexes(s: string): Option<seq<nat>>
  {
    if s == "" then Some([]) else ParseFields(Fields(s))
  }

  /** A run of digits is a single field, and a run of digits followed by ", " closes one field. */
  lemma {:induction false} FieldsOfDecimal(d: string, rest: string)
    requires forall i :: 0 <= i < |d| ==> IsDigit(d[i])
    ensures Fields(d) == [d]
    ensures Fields(d + Separator + rest) == [d] + Fields(rest)
    decreases |d|
  {
    if d != [] {
      assert (d + Separator + rest)[1..] == d[1..] + Separator + rest;
      FieldsOfDecimal(d[1..], rest);
      assert [d[0]] + d[1..] == d;
    } else {
      assert (Separator + rest)[2..] == rest;
    }
  }

  /** Reading back the text `concatenate_indexes` returns gives exactly the offsets it was given. */
  lemma {:induction false} JoinedRoundTrip(indexes: seq<nat>)
    ensures ParseIndexes(Joined(indexes)) == Some(indexes)
    decreases |indexes|
  {
    if |indexes| >= 1 {
      var d := Decimal(indexes[0]);
      DecimalRoundTrip(indexes[0]);
      if |indexes| == 1 {
        FieldsOfDecimal(d, "");
        assert [d][0] == d && IsDecimal(d) && ParseDecimal(d) == indexes[0];
        assert ParseFields([d][1..]) == Some([]);
        assert [ParseDecimal(d)] + [] == [indexes[0]];
        assert ParseFields([d]) == Some([indexes[0]]);
        assert indexes == [indexes[0]];
      } else {
        var tail := Joined(indexes[1..]);
        FieldsOfDecimal(d, tail);
        JoinedRoundTrip(indexes[1..]);
        assert tail != "";
        var fields := [d] + Fields(tail);
        assert fields[1..] == Fields(tail);
        assert ParseFields(fields) == Some([indexes[0]] + indexes[1..]);
        assert indexes == [indexes[0]] + indexes[1..];
      }
    }
  }
}
