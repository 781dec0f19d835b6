/** The indexes of the allocator: AVL trees of ranges, searched with the wrapping comparators. */
module RangeIndex {
  import opened Common
  import opened AvlShape
  import opened AvlOrder
  import opened Ranges

  type Index = Tree<Range>

  /** Where a range belongs in an index by start, or by size and then start. */
  function KeyOf(bySize: bool, r: Range): int {
    if bySize then Size(r) * WORD + r.start else r.start
  }

  function Cmp(bySize: bool, a: Range, b: Range): int {
    if bySize then CmpSize(a, b) else CmpStart(a, b)
  }

  ghost predicate Indexed(bySize: bool, t: Index) {
    Avl(t) && Sorted(Inorder(t)) && forall x <- Inorder(t) :: Placed(x.0) && x.1 == KeyOf(bySize, x.0)
  }

  ghost function Elements(t: Index): set<Range> {
    set x | x in Inorder(t) :: x.0
  }

  // ----- insertion and removal

  function Put(bySize: bool, t: Index, r: Range): Index
    requires Avl(t)
  {
    SeatAvl(t, KeyOf(bySize, r), Top);
    InsertAt(r, KeyOf(bySize, r), Seat(t, KeyOf(bySize, r), Top))
  }

  lemma PutCorrect(bySize: bool, t: Index, r: Range)
    requires Indexed(bySize, t) && Placed(r) && Fresh(Inorder(t), KeyOf(bySize, r))
    ensures Indexed(bySize, Put(bySize, t, r)) && Elements(Put(bySize, t, r)) == Elements(t) + {r}
  {
    hide Put, Avl, Sorted, Inserted, Inorder, Fresh;
    var k, s := KeyOf(bySize, r), Inorder(t);
    InsertCorrect(t, r, k);
    PutIs(bySize, t, r);
    InsertedSorted(s, (r, k));
    assert forall x :: x in Inserted(s, (r, k)) <==> x in s || x == (r, k) by {
      forall x
        ensures x in Inserted(s, (r, k)) <==> x in s || x == (r, k)
      {
        assert x in multiset(Inserted(s, (r, k))) <==> x in multiset(s) + multiset{(r, k)};
      }
    }
  }

  lemma PutIs(bySize: bool, t: Index, r: Range)
    requires Avl(t)
    ensures AvlPath(Seat(t, KeyOf(bySize, r), Top), 0)
    ensures Put(bySize, t, r) == InsertAt(r, KeyOf(bySize, r), Seat(t, KeyOf(bySize, r), Top))
  {
    SeatAvl(t, KeyOf(bySize, r), Top);
  }

  /** The subtree whose root has key k, and the path to it. */
  function Locate(t: Index, k: int, path: Path<Range>): (Index, Path<Range>)
    decreases t
  {
    match t
    case Nil => (t, path)
    case Fork(n, key, b, l, r) =>
      if key == k then (t, path)
      else if key < k then Locate(r, k, Up(RightSide, n, key, b, l, path))
      else Locate(l, k, Up(LeftSide, n, key, b, r, path))
  }

  lemma {:induction false} LocateCorrect(t: Index, k: int, path: Path<Range>, x: Range)
    requires Sorted(Inorder(t)) && (x, k) in Inorder(t) && Avl(t) && AvlPath(path, Height(t))
    ensures var (sub, p) := Locate(t, k, path);
            && sub.Fork? && sub.key == k && Avl(sub) && AvlPath(p, Height(sub)) && Plug(sub, p) == Plug(t, path)
    decreases t
  {
    hide Avl, AvlPath, Plug, Sorted, Height;
    TreeParts(t);
    StepDown(t, path, RightSide);
    StepDown(t, path, LeftSide);
    if t.key < k {
      LocateCorrect(t.right, k, Up(RightSide, t.node, t.key, t.bal, t.left, path), x);
    } else if t.key > k {
      LocateCorrect(t.left, k, Up(LeftSide, t.node, t.key, t.bal, t.right, path), x);
    }
  }

  lemma StepDown(t: Index, path: Path<Range>, side: Side)
    requires t.Fork? && Avl(t) && AvlPath(path, Height(t))
    ensures var sub, p := Kid(t, side), Up(side, t.node, t.key, t.bal, Kid(t, Opposite(side)), path);
            Avl(sub) && AvlPath(p, Height(sub)) && Plug(sub, p) == Plug(t, path)
  {
  }

  function Drop(bySize: bool, t: Index, r: Range): Index
    requires (r, KeyOf(bySize, r)) in Inorder(t) && Sorted(Inorder(t)) && Avl(t)
  {
    LocateCorrect(t, KeyOf(bySize, r), Top, r);
    var (sub, p) := Locate(t, KeyOf(bySize, r), Top);
    RemoveAt(sub, p)
  }

  lemma DropCorrect(bySize: bool, t: Index, r: Range)
    requires Indexed(bySize, t) && r in Elements(t)
    ensures (r, KeyOf(bySize, r)) in Inorder(t)
    ensures Indexed(bySize, Drop(bySize, t, r)) && Elements(Drop(bySize, t, r)) == Elements(t) - {r}
  {
    hide Avl, AvlPath, Sorted, Without, Inorder, RemoveAt, Plug, Locate;
    var k, s := KeyOf(bySize, r), Inorder(t);
    var y :| y in s && y.0 == r;
    assert y == (r, k);
    LocateCorrect(t, k, Top, r) by { TopPath(t); }
    var (sub, p) := Locate(t, k, Top);
    TopPath(t);
    RemoveCorrect(sub, p);
    WithoutEntry(s, r, k);
  }

  lemma TopPath(t: Index)
    ensures AvlPath(Path<Range>.Top, Height(t)) && Plug(t, Top) == t
  {
  }

  lemma {:induction false} WithoutEntry(s: seq<(Range, int)>, r: Range, k: int)
    requires Sorted(s) && (r, k) in s
    ensures forall x :: x in Without(s, k) <==> x in s && x != (r, k)
    ensures forall x :: x in s && x.0 == r ==> x.1 == k || x in Without(s, k)
  {
    var i :| 0 <= i < |s| && s[i] == (r, k);
    var a, b := s[..i], s[i + 1..];
    assert s == a + [(r, k)] + b;
    SortedParts(a, (r, k), b);
    WithoutAt(a, b, (r, k));
  }

  // ----- searches

  function SearchAtMost(bySize: bool, t: Index, key: Range): Option<Range> {
    match t
    case Nil => None
    case Fork(n, _, _, l, r) =>
      if Cmp(bySize, n, key) == 0 then Some(n)
      else if Cmp(bySize, n, key) < 0 then
        var below := SearchAtMost(bySize, r, key);
        if below.None? then Some(n) else below
      else SearchAtMost(bySize, l, key)
  }

  function SearchAtLeast(bySize: bool, t: Index, key: Range): Option<Range> {
    match t
    case Nil => None
    case Fork(n, _, _, l, r) =>
      if Cmp(bySize, n, key) == 0 then Some(n)
      else if Cmp(bySize, n, key) > 0 then
        var above := SearchAtLeast(bySize, l, key);
        if above.None? then Some(n) else above
      else SearchAtLeast(bySize, r, key)
  }

  /** The comparator orders the key, whose place is k, truly against the whole index. */
  ghost predicate Orders(bySize: bool, s: seq<(Range, int)>, key: Range, k: int) {
    forall x <- s :: (Cmp(bySize, x.0, key) < 0 <==> x.1 < k) && (Cmp(bySize, x.0, key) == 0 <==> x.1 == k)
  }

  /** It takes the entries below `split` to come after the key and all others to come before it. */
  ghost predicate Inverts(bySize: bool, s: seq<(Range, int)>, key: Range, split: int) {
    forall x <- s :: Cmp(bySize, x.0, key) != 0 && (Cmp(bySize, x.0, key) > 0 <==> x.1 < split)
  }

  ghost predicate Keyed(bySize: bool, s: seq<(Range, int)>) {
    forall x <- s :: x.1 == KeyOf(bySize, x.0)
  }

  /** The entry with the greatest key up to k. */
  ghost predicate Last(bySize: bool, s: seq<(Range, int)>, k: int, r: Option<Range>) {
    if r.None? then forall x <- s :: x.1 > k
    else
      var y := (r.value, KeyOf(bySize, r.value));
      y in s && y.1 <= k && forall x <- s :: x.1 <= k ==> x.1 <= y.1
  }

  /** The entry with the least key from k on. */
  ghost predicate First(bySize: bool, s: seq<(Range, int)>, k: int, r: Option<Range>) {
    if r.None? then forall x <- s :: x.1 < k
    else
      var y := (r.value, KeyOf(bySize, r.value));
      y in s && y.1 >= k && forall x <- s :: x.1 >= k ==> y.1 <= x.1
  }

  lemma {:induction false} AtMostExact(bySize: bool, t: Index, key: Range, k: int)
    requires Sorted(Inorder(t)) && Keyed(bySize, Inorder(t)) && Orders(bySize, Inorder(t), key, k)
    ensures Last(bySize, Inorder(t), k, SearchAtMost(bySize, t, key))
    decreases t
  {
    hide Cmp, Sorted, KeyOf;
    if t.Fork? {
      TreeParts(t);
      var n := (t.node, t.key);
      assert n in Inorder(t);
      if n.1 < k {
        AtMostExact(bySize, t.right, key, k);
      } else if n.1 > k {
        AtMostExact(bySize, t.left, key, k);
      }
    }
  }

  lemma {:induction false} AtLeastExact(bySize: bool, t: Index, key: Range, k: int)
    requires Sorted(Inorder(t)) && Keyed(bySize, Inorder(t)) && Orders(bySize, Inorder(t), key, k)
    ensures First(bySize, Inorder(t), k, SearchAtLeast(bySize, t, key))
    decreases t
  {
    hide Cmp, Sorted, KeyOf;
    if t.Fork? {
      TreeParts(t);
      var n := (t.node, t.key);
      assert n in Inorder(t);
      if n.1 > k {
        AtLeastExact(bySize, t.left, key, k);
      } else if n.1 < k {
        AtLeastExact(bySize, t.right, key, k);
      }
    }
  }

  /** In an inverted index the search upwards finds the first entry if the root is misjudged, and nothing otherwise. */
  lemma {:induction false} SearchInverted(bySize: bool, t: Index, key: Range, split: int)
    requires Sorted(Inorder(t)) && Inverts(bySize, Inorder(t), key, split)
    ensures SearchAtLeast(bySize, t, key)
         == if t.Fork? && Cmp(bySize, t.node, key) > 0 then Some(Inorder(t)[0].0) else None
    decreases t
  {
    hide Cmp;
    if t.Fork? {
      TreeParts(t);
      var n := (t.node, t.key);
      assert n in Inorder(t);
      SearchInverted(bySize, t.left, key, split);
      SearchInverted(bySize, t.right, key, split);
      if t.left.Fork? {
        assert (t.left.node, t.left.key) in Inorder(t.left);
      }
      if t.right.Fork? {
        assert (t.right.node, t.right.key) in Inorder(t.right);
      }
    }
  }

  lemma {:induction false} SearchInside(bySize: bool, t: Index, key: Range)
    ensures SearchAtMost(bySize, t, key).Some? ==> SearchAtMost(bySize, t, key).value in Elements(t)
    ensures SearchAtLeast(bySize, t, key).Some? ==> SearchAtLeast(bySize, t, key).value in Elements(t)
    decreases t
  {
    if t.Fork? {
      SearchInside(bySize, t.left, key);
      SearchInside(bySize, t.right, key);
      assert (t.node, t.key) in Inorder(t);
      assert forall x :: x in Inorder(t.left) || x in Inorder(t.right) ==> x in Inorder(t);
    }
  }

  // ----- what the searches mean for the set of ranges

  /** The range with the greatest start that is at most k. */
  ghost predicate LastAtMost(s: set<Range>, k: int, r: Option<Range>) {
    && (r.Some? ==> r.value in s && r.value.start <= k)
    && forall x <- s :: x.start <= k ==> r.Some? && x.start <= r.value.start
  }

  /** The range with the least start that is at least k. */
  ghost predicate FirstAtLeast(s: set<Range>, k: int, r: Option<Range>) {
    && (r.Some? ==> r.value in s && r.value.start >= k)
    && forall x <- s :: x.start >= k ==> r.Some? && r.value.start <= x.start
  }

  /** The smallest sufficient range, the lowest one on ties. */
  ghost predicate BestFit(s: set<Range>, size: nat, r: Option<Range>) {
    && (r.Some? ==> r.value in s && Size(r.value) >= size)
    && forall x <- s :: Size(x) >= size ==> r.Some? && (x == r.value || SmallerFit(r.value, x))
  }

  /** The root starts so far before the key that the comparator takes it to come after it. */
  predicate RootMisjudged(t: Index, start: nat) {
    t.Fork? && start - t.node.start > HALF
  }

  /** The same for a request that the root is too small for. */
  predicate RootTooSmall(t: Index, size: nat) {
    t.Fork? && size - Size(t.node) > HALF
  }

  lemma StartOrders(t: Index, key: Range)
    requires Indexed(false, t) && key.start < WORD
    ensures key.start <= HALF ==> Orders(false, Inorder(t), key, key.start)
    ensures key.start > HALF ==> Inverts(false, Inorder(t), key, key.start - HALF)
  {
    forall x | x in Inorder(t)
      ensures key.start <= HALF ==>
                (CmpStart(x.0, key) < 0 <==> x.1 < key.start) && (CmpStart(x.0, key) == 0 <==> x.1 == key.start)
      ensures key.start > HALF ==> CmpStart(x.0, key) != 0 && (CmpStart(x.0, key) > 0 <==> x.1 < key.start - HALF)
    {
      DiffExact(x.0.start, key.start);
      StartMisleads(x.0, key);
    }
  }

  /** The searches by start for every 32-bit key: exact up to 2^31, and beyond it decided by the root. */
  lemma SearchByStart(t: Index, key: Range)
    requires Indexed(false, t) && key.start < WORD
    ensures key.start <= HALF ==>
              && LastAtMost(Elements(t), key.start, SearchAtMost(false, t, key))
              && FirstAtLeast(Elements(t), key.start, SearchAtLeast(false, t, key))
    ensures key.start > HALF ==>
              SearchAtLeast(false, t, key) == if RootMisjudged(t, key.start) then Some(Inorder(t)[0].0) else None
    ensures SearchAtMost(false, t, key).Some? ==> SearchAtMost(false, t, key).value in Elements(t)
  {
    hide Avl, Sorted, Cmp, SearchAtMost, SearchAtLeast;
    StartOrders(t, key);
    SearchInside(false, t, key);
    if key.start <= HALF {
      AtMostExact(false, t, key, key.start);
      AtLeastExact(false, t, key, key.start);
    } else {
      SearchInverted(false, t, key, key.start - HALF);
      RootEntry(t);
      if t.Fork? {
        StartMisleads(t.node, key);
        CmpIs(t.node, key);
      }
    }
  }

  lemma CmpIs(a: Range, b: Range)
    ensures Cmp(false, a, b) == CmpStart(a, b) && Cmp(true, a, b) == CmpSize(a, b)
  {
  }

  lemma RootEntry(t: Index)
    ensures t.Fork? ==> (t.node, t.key) in Inorder(t) && t.node in Elements(t)
  {
  }

  lemma FitOrders(t: Index, size: nat)
    requires Indexed(true, t) && 0 < size < WORD
    ensures size <= HALF ==> Orders(true, Inorder(t), Range(0, size), size * WORD)
    ensures size > HALF ==> Inverts(true, Inorder(t), Range(0, size), (size - HALF) * WORD)
  {
    var key := Range(0, size);
    forall x | x in Inorder(t)
      ensures size <= HALF ==>
                (CmpSize(x.0, key) < 0 <==> x.1 < size * WORD) && (CmpSize(x.0, key) == 0 <==> x.1 == size * WORD)
      ensures size > HALF ==> CmpSize(x.0, key) != 0 && (CmpSize(x.0, key) > 0 <==> x.1 < (size - HALF) * WORD)
    {
      DiffExact(Size(x.0), size);
      DiffExact(x.0.start, 0);
      if Size(x.0) < size {
        SizeMisleads(x.0, size);
      }
    }
  }

  /** The search by size for every 32-bit request: the best fit up to 2^31, and beyond it decided by the root. */
  lemma SearchBySize(t: Index, size: nat)
    requires Indexed(true, t) && 0 < size < WORD
    ensures size <= HALF ==> BestFit(Elements(t), size, SearchAtLeast(true, t, Range(0, size)))
    ensures size > HALF ==>
              && SearchAtLeast(true, t, Range(0, size)) == (if RootTooSmall(t, size) then Some(Inorder(t)[0].0) else None)
              && forall x <- Elements(t) :: Size(x) < size
  {
    hide Avl, Sorted, Cmp, SearchAtMost, SearchAtLeast;
    FitOrders(t, size);
    if size <= HALF {
      AtLeastExact(true, t, Range(0, size), size * WORD);
    } else {
      SearchInverted(true, t, Range(0, size), (size - HALF) * WORD);
      RootEntry(t);
      if t.Fork? {
        SizeMisleads(t.node, size);
        CmpIs(t.node, Range(0, size));
      }
    }
  }
}
