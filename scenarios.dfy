/**
 * A worked example of the scan over a three-line file, searching for "foo":
 *
 *   line 1  "foo bar foo"   matches at offsets 0 and 8
 *   line 2  "baz"           no match, so no entry
 *   line 3  "FOO baz foo"   matches at offset 8 only (matching is case-sensitive)
 *
 * Lines are written as their ASCII bytes.
 */
module Scenarios {
  import opened StrFind
  import opened Scanner
  import opened Grep

  const Foo: Bytes := [0x66, 0x6f, 0x6f]
  const FooBarFoo: Bytes := [0x66, 0x6f, 0x6f, 0x20, 0x62, 0x61, 0x72, 0x20, 0x66, 0x6f, 0x6f]
  const Baz: Bytes := [0x62, 0x61, 0x7a]
  const UpperFooBazFoo: Bytes := [0x46, 0x4f, 0x4f, 0x20, 0x62, 0x61, 0x7a, 0x20, 0x66, 0x6f, 0x6f]

  /** An occurrence starts with the search string's first byte. */
  lemma StartsWithFirstByte(s: Bytes, needle: Bytes, p: nat)
    requires needle != []
    ensures OccursAt(s, needle, p) ==> p < |s| && s[p] == needle[0]
  {
    if OccursAt(s, needle, p) {
      assert s[p..p + |needle|][0] == s[p];
    }
  }

  lemma FooBarFooOffsets()
    ensures AllMatches(FooBarFoo, Foo) == [0, 8]
  {
    assert FooBarFoo[0..3] == Foo;
    assert FooBarFoo[8..11] == Foo;
    forall p: nat | 3 <= p < 8 ensures !OccursAt(FooBarFoo, Foo, p) {
      StartsWithFirstByte(FooBarFoo, Foo, p);
      assert p == 3 || p == 4 || p == 5 || p == 6 || p == 7;
    }
    assert GapsClear(FooBarFoo, Foo, 11, []);
    assert GapsClear(FooBarFoo, Foo, 3, [8]);
    assert IsGreedyScan(FooBarFoo, Foo, 0, [0, 8]);
    GreedyScanIsUnique(FooBarFoo, Foo, 0, [0, 8]);
  }

  lemma BazOffsets()
    ensures AllMatches(Baz, Foo) == []
  {
    StartsWithFirstByte(Baz, Foo, 0);
    assert NoOccurrenceFrom(Baz, Foo, 0);
    AllMatchesEmptyIff(Baz, Foo);
  }

  lemma UpperFooBazFooOffsets()
    ensures AllMatches(UpperFooBazFoo, Foo) == [8]
  {
    assert UpperFooBazFoo[8..11] == Foo;
    forall p: nat | 0 <= p < 8 ensures !OccursAt(UpperFooBazFoo, Foo, p) {
      StartsWithFirstByte(UpperFooBazFoo, Foo, p);
      assert p == 0 || p == 1 || p == 2 || p == 3 || p == 4 || p == 5 || p == 6 || p == 7;
    }
    assert GapsClear(UpperFooBazFoo, Foo, 11, []);
    assert IsGreedyScan(UpperFooBazFoo, Foo, 0, [8]);
    GreedyScanIsUnique(UpperFooBazFoo, Foo, 0, [8]);
  }

  /** The results for the whole file: line 1 with offsets 0 and 8, then line 3 with offset 8. */
  lemma ThreeLineFile()
    ensures ExpectedResults([FooBarFoo, Baz, UpperFooBazFoo], Foo) == [(1, [0, 8]), (3, [8])]
  {
    FooBarFooOffsets();
    BazOffsets();
    UpperFooBazFooOffsets();
    ResultsAppend([], FooBarFoo, Foo);
    ResultsAppend([FooBarFoo], Baz, Foo);
    ResultsAppend([FooBarFoo, Baz], UpperFooBazFoo, Foo);
    assert [] + [FooBarFoo] == [FooBarFoo];
    assert [FooBarFoo] + [Baz] == [FooBarFoo, Baz];
    assert [FooBarFoo, Baz] + [UpperFooBazFoo] == [FooBarFoo, Baz, UpperFooBazFoo];
  }
}
