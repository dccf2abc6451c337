/** Wrappers and collection facts shared by the other modules. */
module Common {
  const U64_LIMIT := 0x1_0000_0000_0000_0000

  const U64_MAX := 0xFFFF_FFFF_FFFF_FFFF

  datatype Option<+T> = None | Some(value: T)

  datatype Result<+T, +E> = Ok(value: T) | Err(error: E)

  function Min(a: int, b: int): (r: int)
    ensures r <= a && r <= b && (r == a || r == b)
  {
    if a < b then a else b
  }

  function Max(a: int, b: int): (r: int)
    ensures r >= a && r >= b && (r == a || r == b)
  {
    if a < b then b else a
  }

  /** The elements of `s`, as a set. */
  function ToSet<T>(s: seq<T>): set<T> {
    set x | x in s
  }

  ghost predicate Distinct<T>(s: seq<T>) {
    forall i, j :: 0 <= i < j < |s| ==> s[i] != s[j]
  }

  /** A sequence has as many elements as its set exactly when nothing repeats. */
  lemma {:induction false} DistinctIffCardinality<T>(s: seq<T>)
    ensures |ToSet(s)| <= |s|
    ensures |ToSet(s)| == |s| <==> Distinct(s)
  {
    if s != [] {
      var init, last := s[..|s| - 1], s[|s| - 1];
      DistinctIffCardinality(init);
      assert s == init + [last];
      assert ToSet(s) == ToSet(init) + {last};
      if last in init {
        assert ToSet(s) == ToSet(init);
      } else {
        assert |ToSet(s)| == |ToSet(init)| + 1;
        assert Distinct(s) <==> Distinct(init);
      }
    }
  }

  lemma {:induction false} SubsetCardinality<T>(a: set<T>, b: set<T>)
    requires a <= b
    ensures |a| <= |b|
    ensures |a| == |b| ==> a == b
  {
    assert b == a + (b - a);
    assert |b| == |a| + |b - a|;
  }
}
