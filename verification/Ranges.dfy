/** Half-open address ranges, the comparators that order them, and tidy sets of free ranges. */
module Ranges {
  import opened Common

  const WORD := 0x1_0000_0000
  const HALF := 0x8000_0000

  datatype Range = Range(start: nat, end: nat)

  function Size(r: Range): nat {
    if r.end < r.start then 0 else r.end - r.start
  }

  function Intersect(a: Range, b: Range): (r: Range)
    ensures forall x :: In(r, x) <==> In(a, x) && In(b, x)
  {
    Range(if a.start > b.start then a.start else b.start, if a.end < b.end then a.end else b.end)
  }

  predicate In(r: Range, a: int) {
    r.start <= a < r.end
  }

  // ----- comparators: an unsigned difference stored in a signed word

  function Diff(a: int, b: int): (d: int)
    ensures -HALF <= d < HALF
  {
    var u := (a - b) % WORD;
    if u < HALF then u else u - WORD
  }

  function CmpStart(a: Range, b: Range): int {
    Diff(a.start, b.start)
  }

  function CmpSize(a: Range, b: Range): int {
    var v := Diff(Size(a), Size(b));
    if v != 0 then v else Diff(a.start, b.start)
  }

  /** The wrapped difference has the sign of the true one exactly while the true one fits a signed word. */
  lemma DiffExact(a: int, b: int)
    requires 0 <= a < WORD && 0 <= b < WORD
    ensures (Diff(a, b) < 0 <==> a < b) && (Diff(a, b) > 0 <==> a > b) <==> -HALF <= a - b < HALF
    ensures Diff(a, b) == 0 <==> a == b
  {
  }

  /** Without the bound the comparator is not even an order. */
  lemma ComparatorCycle()
    ensures CmpStart(Range(0, 1), Range(0x6000_0000, 0x6000_0001)) < 0
    ensures CmpStart(Range(0x6000_0000, 0x6000_0001), Range(0xC000_0000, 0xC000_0001)) < 0
    ensures CmpStart(Range(0xC000_0000, 0xC000_0001), Range(0, 1)) < 0
  {
  }

  /** A free range that is too small is taken for a sufficient one exactly when it is too small by more than 2^31. */
  lemma SizeMisleads(r: Range, size: nat)
    requires size < WORD && Size(r) < size
    ensures CmpSize(r, Range(0, size)) >= 0 <==> size - Size(r) > HALF
  {
  }

  /** A key beyond 2^31 is taken to lie before a range that it lies after, exactly when it is more than 2^31 past its start. */
  lemma StartMisleads(r: Range, key: Range)
    requires Placed(r) && key.start < WORD
    ensures CmpStart(r, key) > 0 <==> r.start > key.start || key.start - r.start > HALF
  {
  }

  /** Lexicographic order by size, then start. */
  predicate SmallerFit(a: Range, b: Range) {
    Size(a) < Size(b) || (Size(a) == Size(b) && a.start < b.start)
  }

  lemma SizeOrder(a: Range, b: Range)
    requires Placed(a) && Placed(b)
    ensures CmpSize(a, b) < 0 <==> SmallerFit(a, b)
    ensures CmpSize(a, b) == 0 <==> a == b
  {
  }

  // ----- tidy sets

  /** Not empty, and all its addresses below 2^31. */
  predicate Placed(r: Range) {
    r.start < r.end <= HALF
  }

  predicate Apart(a: Range, b: Range) {
    a.end <= b.start || b.end <= a.start
  }

  /** Neither overlapping nor touching. */
  predicate Gap(a: Range, b: Range) {
    a.end < b.start || b.end < a.start
  }

  ghost predicate Tidy(s: set<Range>) {
    && (forall x <- s :: Placed(x))
    && forall x <- s, y <- s :: x != y ==> Gap(x, y)
  }

  ghost predicate Covers(s: set<Range>, a: int) {
    exists r :: r in s && In(r, a)
  }

  /** A set of ranges and one more range cover the same addresses as another set and range. */
  ghost predicate SameSpace(s: set<Range>, r: Range, s': set<Range>, r': Range) {
    forall a :: Covers(s, a) || In(r, a) <==> Covers(s', a) || In(r', a)
  }

  ghost predicate ApartFrom(r: Range, s: set<Range>) {
    forall x <- s :: Apart(r, x)
  }

  /** A neighbour on the right is merged: the union touches nothing further right. */
  lemma MergeRight(s: set<Range>, r: Range, f: Range)
    requires Tidy(s) && Placed(r) && ApartFrom(r, s) && f in s && f.start == r.end
    ensures var u, rest := Range(r.start, f.end), s - {f};
            && Tidy(rest) && Placed(u) && ApartFrom(u, rest) && SameSpace(s, r, rest, u)
            && forall x <- rest :: x.start != u.end
  {
  }

  /** A neighbour on the left is merged once nothing touches on the right: the result is tidy. */
  lemma MergeLeft(s: set<Range>, r: Range, f: Range)
    requires Tidy(s) && Placed(r) && ApartFrom(r, s) && f in s && f.end == r.start
    requires forall x <- s :: x.start != r.end
    ensures var u := Range(f.start, r.end); Tidy(s - {f} + {u}) && u !in s
    ensures forall a :: Covers(s - {f} + {Range(f.start, r.end)}, a) <==> Covers(s, a) || In(r, a)
  {
  }

  /** Nothing touches: the range is added as it is. */
  lemma MergeNone(s: set<Range>, r: Range)
    requires Tidy(s) && Placed(r) && ApartFrom(r, s) && forall x <- s :: x.start != r.end && x.end != r.start
    ensures Tidy(s + {r}) && r !in s
    ensures forall a :: Covers(s + {r}, a) <==> Covers(s, a) || In(r, a)
  {
  }

  lemma AddedCovers(s: set<Range>, r: Range)
    ensures forall a :: Covers(s + {r}, a) <==> Covers(s, a) || In(r, a)
  {
  }

  /** In a tidy set a run of covered addresses lies within one range. */
  lemma {:induction false} RunInside(s: set<Range>, a: int, n: nat) returns (r: Range)
    requires Tidy(s) && n > 0 && forall i :: a <= i < a + n ==> Covers(s, i)
    ensures r in s && r.start <= a && a + n <= r.end
  {
    if n == 1 {
      assert Covers(s, a);
      r :| r in s && In(r, a);
    } else {
      r := RunInside(s, a, n - 1);
      assert Covers(s, a + n - 1);
      var q :| q in s && In(q, a + n - 1);
      assert q == r || Gap(q, r);
    }
  }

  /** Tidy sets are canonical: the covered addresses determine the ranges. */
  lemma TidyUnique(s: set<Range>, s': set<Range>)
    requires Tidy(s) && Tidy(s') && forall a :: Covers(s, a) <==> Covers(s', a)
    ensures s == s'
  {
    forall r | r in s
      ensures r in s'
    {
      InBoth(s, s', r);
    }
    forall r | r in s'
      ensures r in s
    {
      InBoth(s', s, r);
    }
  }

  lemma InBoth(s: set<Range>, s': set<Range>, r: Range)
    requires Tidy(s) && Tidy(s') && (forall a :: Covers(s, a) <==> Covers(s', a)) && r in s
    ensures r in s'
  {
    forall i | r.start <= i < r.start + (r.end - r.start)
      ensures Covers(s', i)
    {
      assert In(r, i);
    }
    var q := RunInside(s', r.start, r.end - r.start);
    forall i | q.start <= i < q.start + (q.end - q.start)
      ensures Covers(s, i)
    {
      assert In(q, i);
    }
    var p := RunInside(s, q.start, q.end - q.start);
    assert p == r || Gap(p, r);
  }
}
