/** The coalescing allocator: two free indexes, an allocated index and reference-counted owners. */
module Allocator {
  import opened Common
  import opened AvlShape
  import opened AvlOrder
  import opened Ranges
  import opened RangeIndex

  /** A handle for the caller's object, whose destructor runs when the last fragment goes. */
  type UserObj = nat

  /** A user object with its count of fragments; `live` until its destructor has run. */
  class Owner {
    const obj: UserObj
    var refcount: int
    var live: bool

    constructor (o: UserObj)
      ensures obj == o && refcount == 0 && live
    {
      obj, refcount, live := o, 0, true;
    }

    method AddRef()
      modifies this
      ensures refcount == old(refcount) + 1 && live == old(live)
    {
      refcount := refcount + 1;
    }

    method DropRef()
      modifies this
      ensures refcount == old(refcount) - 1 && live == (old(live) && refcount != 0)
    {
      refcount := refcount - 1;
      if refcount == 0 {
        live := false;
      }
    }
  }

  // ----- the allocated index

  ghost predicate Disjoint(s: set<Range>) {
    && (forall x <- s :: Placed(x))
    && forall x <- s, y <- s :: x != y ==> Apart(x, y)
  }

  ghost predicate Owns(m: map<Range, Owner>, o: Owner, a: int) {
    exists r :: r in m && In(r, a) && m[r] == o
  }

  /** How many fragments an owner has. */
  ghost function Count(m: map<Range, Owner>, o: Owner): nat {
    |set r | r in m && m[r] == o|
  }

  lemma CountPut(m: map<Range, Owner>, r: Range, o: Owner, q: Owner)
    requires r !in m
    ensures Count(m[r := o], q) == Count(m, q) + if q == o then 1 else 0
  {
    var m' := m[r := o];
    var before, after := set x | x in m && m[x] == q, set x | x in m' && m'[x] == q;
    assert after == if q == o then before + {r} else before;
  }

  lemma CountDrop(m: map<Range, Owner>, r: Range, q: Owner)
    requires r in m
    ensures Count(m, q) == Count(m - {r}, q) + if m[r] == q then 1 else 0
  {
    var m' := m - {r};
    var before, after := set x | x in m && m[x] == q, set x | x in m' && m'[x] == q;
    assert before == if m[r] == q then after + {r} else after;
  }

  /** An owner has fragments exactly if it owns an address. */
  lemma CountOwns(m: map<Range, Owner>, o: Owner)
    requires Disjoint(m.Keys)
    ensures Count(m, o) > 0 <==> exists a :: Owns(m, o, a)
  {
    var s := set r | r in m && m[r] == o;
    if s != {} {
      var r :| r in s;
      assert r in m.Keys && In(r, r.start);
      assert Owns(m, o, r.start);
    }
    if a :| Owns(m, o, a) {
      var r :| r in m && In(r, a) && m[r] == o;
      assert r in s;
    }
  }

  function Left(r: Range, overlap: Range): Range {
    Range(r.start, overlap.start)
  }

  function Right(r: Range, overlap: Range): Range {
    Range(overlap.end, r.end)
  }

  /** The index with `overlap` cut out of the fragment r: up to two fragments remain of it. */
  ghost function Carved(m: map<Range, Owner>, r: Range, overlap: Range): map<Range, Owner>
    requires r in m
  {
    var cut := m - {r};
    var cut' := if Size(Left(r, overlap)) > 0 then cut[Left(r, overlap) := m[r]] else cut;
    if Size(Right(r, overlap)) > 0 then cut'[Right(r, overlap) := m[r]] else cut'
  }

  ghost predicate Inside(overlap: Range, r: Range) {
    r.start <= overlap.start < overlap.end <= r.end
  }

  lemma CarvedDisjoint(m: map<Range, Owner>, r: Range, overlap: Range)
    requires Disjoint(m.Keys) && r in m && Inside(overlap, r)
    ensures Disjoint(Carved(m, r, overlap).Keys)
    ensures Size(Left(r, overlap)) > 0 ==> Left(r, overlap) !in m - {r}
    ensures Size(Right(r, overlap)) > 0 ==> Right(r, overlap) !in m - {r} && Right(r, overlap) != Left(r, overlap)
    ensures forall x <- Carved(m, r, overlap).Keys :: Apart(x, overlap)
  {
    var c := Carved(m, r, overlap);
    forall x | x in m && x != r
      ensures Apart(x, Left(r, overlap)) && Apart(x, Right(r, overlap)) && Apart(x, overlap)
      ensures x != Left(r, overlap) && x != Right(r, overlap)
    {
      assert x in m.Keys && r in m.Keys && Apart(x, r) && Placed(x);
    }
    forall x | x in c.Keys
      ensures (x in m && x != r) || (x == Left(r, overlap) && Size(x) > 0) || (x == Right(r, overlap) && Size(x) > 0)
      ensures Placed(x)
    {
      assert r in m.Keys;
      if x in m && x != r {
        assert x in m.Keys;
      }
    }
  }

  lemma CarvedOwns(m: map<Range, Owner>, r: Range, overlap: Range, o: Owner, a: int)
    requires Disjoint(m.Keys) && r in m && Inside(overlap, r)
    ensures Owns(Carved(m, r, overlap), o, a) <==> Owns(m, o, a) && !In(overlap, a)
  {
    var c, l, g := Carved(m, r, overlap), Left(r, overlap), Right(r, overlap);
    CarvedDisjoint(m, r, overlap);
    if x :| x in c && In(x, a) && c[x] == o {
      assert x in c.Keys && Apart(x, overlap);
      if x == l || x == g {
        assert In(r, a) && m[r] == o;
      } else {
        assert x in m && m[x] == o;
      }
    }
    if !In(overlap, a) {
      if x :| x in m && In(x, a) && m[x] == o {
        if x == r {
          assert (In(l, a) && l in c && c[l] == o) || (In(g, a) && g in c && c[g] == o);
        } else {
          assert x in c && c[x] == o;
        }
      }
    }
  }

  lemma CarvedCovers(m: map<Range, Owner>, r: Range, overlap: Range)
    requires Disjoint(m.Keys) && r in m && Inside(overlap, r)
    ensures forall a :: Covers(Carved(m, r, overlap).Keys, a) || In(overlap, a) <==> Covers(m.Keys, a)
  {
    var c := Carved(m, r, overlap);
    forall a
      ensures Covers(c.Keys, a) || In(overlap, a) <==> Covers(m.Keys, a)
    {
      KeysOwn(m, a);
      KeysOwn(c, a);
      assert In(overlap, a) ==> In(r, a) && r in m.Keys;
      if o :| Owns(m, o, a) {
        CarvedOwns(m, r, overlap, o, a);
      }
      if o :| Owns(c, o, a) {
        CarvedOwns(m, r, overlap, o, a);
      }
    }
  }

  lemma CarvedApart(m: map<Range, Owner>, r: Range, overlap: Range, s: set<Range>)
    requires r in m && Inside(overlap, r) && forall f <- s, x <- m.Keys :: Apart(f, x)
    ensures forall f <- s, x <- Carved(m, r, overlap).Keys :: Apart(f, x)
  {
  }

  lemma KeysOwn(m: map<Range, Owner>, a: int)
    ensures Covers(m.Keys, a) <==> exists o :: o in m.Values && Owns(m, o, a)
  {
    if r :| r in m.Keys && In(r, a) {
      assert Owns(m, m[r], a);
    }
    if o :| o in m.Values && Owns(m, o, a) {
      var r :| r in m && In(r, a) && m[r] == o;
      assert r in m.Keys;
    }
  }

  lemma PlacedInside(m: map<Range, Owner>, r: Range, overlap: Range)
    requires Disjoint(m.Keys) && r in m && Inside(overlap, r)
    ensures Placed(overlap) && forall x :: Apart(x, r) ==> Apart(overlap, x)
  {
  }

  lemma ApartPoints(f: Range, x: Range)
    requires Placed(f) && Placed(x) && forall a :: In(f, a) ==> !In(x, a)
    ensures Apart(f, x)
  {
    assert In(f, f.start) && In(x, x.start);
  }

  lemma CarvedCount(m: map<Range, Owner>, r: Range, overlap: Range, o: Owner)
    requires Disjoint(m.Keys) && r in m && Inside(overlap, r)
    ensures Count(Carved(m, r, overlap), o) + (if o == m[r] then 1 else 0)
         == Count(m, o) + if o == m[r] then Pieces(r, overlap) else 0
  {
    CarvedDisjoint(m, r, overlap);
    var cut, l, g := m - {r}, Left(r, overlap), Right(r, overlap);
    CountDrop(m, r, o);
    if Size(l) > 0 {
      CountPut(cut, l, m[r], o);
    }
    var cut' := if Size(l) > 0 then cut[l := m[r]] else cut;
    if Size(g) > 0 {
      CountPut(cut', g, m[r], o);
    }
  }

  /** How many fragments remain of a range that is cut. */
  function Pieces(r: Range, overlap: Range): nat {
    (if Size(Left(r, overlap)) > 0 then 1 else 0) + if Size(Right(r, overlap)) > 0 then 1 else 0
  }

  ghost predicate Touched(s: set<Range>, a: int) {
    exists x :: x in s && x.start == a
  }

  /** Free and taken addresses are together exactly the donated ones. */
  ghost predicate Conserves(free: set<Range>, taken: set<Range>, donated: set<Range>) {
    forall a :: Covers(free, a) || Covers(taken, a) <==> Covers(donated, a)
  }

  lemma ConservesMove(free: set<Range>, taken: set<Range>, free': set<Range>, taken': set<Range>, d: set<Range>, r: Range)
    requires Conserves(free, taken, d)
    requires forall a :: Covers(free', a) <==> Covers(free, a) || In(r, a)
    requires forall a :: Covers(taken', a) || In(r, a) <==> Covers(taken, a)
    ensures Conserves(free', taken', d)
  {
  }

  /** m' is m without the addresses of r, for the owners in s. */
  ghost predicate Freed(s: set<Owner>, m: map<Range, Owner>, m': map<Range, Owner>, r: Range) {
    forall o <- s, a: int :: Owns(m', o, a) <==> Owns(m, o, a) && !In(r, a)
  }

  /** No allocated address from k on, up to the next range. */
  lemma GapEmpty(s: set<Range>, k: int, first: Option<Range>, next: Option<Range>)
    requires Disjoint(s) && LastAtMost(s, k, first) && FirstAtLeast(s, k, next)
    requires first.Some? ==> first.value.end <= k
    ensures next.Some? ==> next.value.start > k
    ensures forall a :: k <= a && (next.Some? ==> a < next.value.start) ==> !Covers(s, a)
  {
  }

  lemma FreedMore(s: set<Owner>, m: map<Range, Owner>, m': map<Range, Owner>, start: int, k: int, k': int)
    requires 0 <= start <= k <= k' && Freed(s, m, m', Range(start, k))
    requires forall a :: k <= a < k' ==> !Covers(m'.Keys, a)
    ensures Freed(s, m, m', Range(start, k'))
  {
    forall o, a: int | o in s
      ensures Owns(m', o, a) <==> Owns(m, o, a) && !In(Range(start, k'), a)
    {
      if Owns(m', o, a) {
        var r :| r in m' && In(r, a) && m'[r] == o;
        assert r in m'.Keys && Covers(m'.Keys, a);
      }
    }
  }

  lemma FreedCarved(s: set<Owner>, m: map<Range, Owner>, m': map<Range, Owner>, start: int, overlap: Range, r: Range)
    requires 0 <= start <= overlap.start && Freed(s, m, m', Range(start, overlap.start))
    requires Disjoint(m'.Keys) && r in m' && Inside(overlap, r)
    ensures Freed(s, m, Carved(m', r, overlap), Range(start, overlap.end))
  {
    forall o, a: int | o in s
      ensures Owns(Carved(m', r, overlap), o, a) <==> Owns(m, o, a) && !In(Range(start, overlap.end), a)
    {
      CarvedOwns(m', r, overlap, o, a);
    }
  }

  /** The start of a free_range argument is so far past the root of the allocated index that the search goes left from it. */
  predicate Astray(t: Index, arg: Range) {
    Size(arg) > 0 && RootMisjudged(t, arg.start)
  }

  /** What free_range frees: its argument, or everything from the first allocation on when the search goes astray. */
  ghost function Freeing(t: Index, arg: Range): Range {
    if Astray(t, arg) then Range(Inorder(t)[0].0.start, arg.end) else arg
  }

  /** The outcome of a request; an assertion stops the program. */
  datatype Allocation = Allocated(range: Range) | NoRange | AssertionFailed

  class CoalescingAllocator {
    var sizeTree: Index
    var startTree: Index
    var takenTree: Index
    var allocations: map<Range, Owner> // the owners of the ranges in takenTree
    var rangeCount: nat
    const allowRedundantFrees: bool
    ghost var freeBySize: set<Range>
    ghost var freeByStart: set<Range>
    ghost var donated: set<Range>
    ghost var owners: set<Owner>

    /** The free indexes are trees of these ranges. */
    ghost predicate FreeTreesOk()
      reads this`sizeTree, this`startTree, this`freeBySize, this`freeByStart
    {
      && Indexed(true, sizeTree) && Elements(sizeTree) == freeBySize
      && Indexed(false, startTree) && Elements(startTree) == freeByStart
    }

    /** Both free indexes hold the same ranges, and no two of them touch. */
    ghost predicate FreeOk()
      reads this`sizeTree, this`startTree, this`freeBySize, this`freeByStart
    {
      FreeTreesOk() && freeBySize == freeByStart && Tidy(freeByStart)
    }

    ghost predicate TakenOk()
      reads this`takenTree, this`allocations
    {
      Indexed(false, takenTree) && Elements(takenTree) == allocations.Keys
    }

    /** Free and allocated ranges are disjoint and together are the donated space. */
    ghost predicate SpaceOk()
      reads this
    {
      && Disjoint(allocations.Keys)
      && (forall f <- freeByStart, r <- allocations.Keys :: Apart(f, r))
      && Conserves(freeByStart, allocations.Keys, donated)
      && rangeCount == |allocations|
    }

    /** An owner's count is its number of fragments, and it lives exactly while it has one. */
    ghost predicate OwnersOk()
      reads this`allocations, this`owners, owners
    {
      && (forall r <- allocations.Keys :: allocations[r] in owners)
      && forall o <- owners :: o.refcount == Count(allocations, o) && (o.live <==> o.refcount > 0)
    }

    ghost predicate Valid()
      reads this, owners
    {
      FreeOk() && TakenOk() && SpaceOk() && OwnersOk()
    }

    constructor (redundant: bool)
      ensures Valid() && allowRedundantFrees == redundant && donated == {} && allocations == map[] && owners == {}
      ensures freeByStart == {} && takenTree == Nil
    {
      sizeTree, startTree, takenTree := Nil, Nil, Nil;
      allocations, rangeCount, allowRedundantFrees := map[], 0, redundant;
      freeBySize, freeByStart, donated, owners := {}, {}, {}, {};
    }

    /** Coalescing to the right happens at most once: the merged range meets no free range at its end. */
    method CreateEmptyRangeNoLock(r: Range)
      requires FreeOk() && Placed(r) && ApartFrom(r, freeByStart)
      modifies this`sizeTree, this`startTree, this`freeBySize, this`freeByStart
      ensures FreeOk() && forall a :: Covers(freeByStart, a) <==> old(Covers(freeByStart, a)) || In(r, a)
      decreases if Touched(freeByStart, r.end) then 1 else 0
    {
      hide Diff, CmpStart, CmpSize, Covers, Indexed, Elements, SearchAtLeast, SearchAtMost;
      SearchByStart(startTree, r);
      var following := SearchAtLeast(false, startTree, r);
      if following.Some? {
        var f := following.value;
        assert f.start >= r.end;
        if f.start == r.end {
          MergeRight(freeByStart, r, f);
          assert Touched(freeByStart, r.end);
          RemoveFreeRange(f);
          CreateEmptyRangeNoLock(Range(r.start, f.end));
          return;
        }
      }
      assert forall x <- freeByStart :: x.start != r.end;
      var preceding := SearchAtMost(false, startTree, r);
      if preceding.Some? {
        var f := preceding.value;
        assert f.end <= r.start;
        if f.end == r.start {
          MergeLeft(freeByStart, r, f);
          RemoveFreeRange(f);
          InsertCoalescedFreeRange(Range(f.start, r.end));
          return;
        }
      }
      assert forall x <- freeByStart :: x.end != r.start;
      MergeNone(freeByStart, r);
      InsertCoalescedFreeRange(r);
    }

    method InsertCoalescedFreeRange(r: Range)
      requires FreeTreesOk() && freeBySize == freeByStart && Placed(r) && r !in freeByStart && Tidy(freeByStart + {r})
      modifies this`sizeTree, this`startTree, this`freeBySize, this`freeByStart
      ensures FreeTreesOk() && freeBySize == old(freeBySize) + {r} && freeByStart == old(freeByStart) + {r}
    {
      hide Put, Indexed, Elements;
      FreshKeys(sizeTree, startTree, r);
      IndexedIs(true, sizeTree);
      IndexedIs(false, startTree);
      PutCorrect(true, sizeTree, r);
      PutCorrect(false, startTree, r);
      sizeTree := Put(true, sizeTree, r);
      startTree := Put(false, startTree, r);
      freeBySize := freeBySize + {r};
      freeByStart := freeByStart + {r};
    }

    /** Each free range is in both indexes, so its twin is found. */
    method RemoveFreeRange(r: Range)
      requires FreeTreesOk() && r in freeByStart && r in freeBySize
      modifies this`sizeTree, this`startTree, this`freeBySize, this`freeByStart
      ensures FreeTreesOk() && freeBySize == old(freeBySize) - {r} && freeByStart == old(freeByStart) - {r}
    {
      hide Drop, Indexed, Elements, Inorder, Sorted, Avl;
      DropCorrect(true, sizeTree, r);
      DropCorrect(false, startTree, r);
      IndexedIs(true, sizeTree);
      IndexedIs(false, startTree);
      sizeTree := Drop(true, sizeTree, r);
      startTree := Drop(false, startTree, r);
      freeBySize := freeBySize - {r};
      freeByStart := freeByStart - {r};
    }

    /** create_empty_range: only the free ranges are checked, so an allocated range can be donated a second time. */
    method CreateEmptyRange(r: Range)
      requires Valid() && Placed(r) && ApartFrom(r, freeByStart)
      modifies this`sizeTree, this`startTree, this`freeBySize, this`freeByStart, this`donated
      ensures FreeOk() && TakenOk() && OwnersOk() && donated == old(donated) + {r}
      ensures SpaceOk() <==> ApartFrom(r, allocations.Keys)
      ensures forall a :: Covers(freeByStart, a) <==> old(Covers(freeByStart, a)) || In(r, a)
    {
      hide Tidy, Disjoint, Count, Indexed, Elements;
      CreateEmptyRangeNoLock(r);
      AddedCovers(donated, r);
      donated := donated + {r};
      if ApartFrom(r, allocations.Keys) {
        StillApart(old(freeByStart), r);
      } else {
        NowOverlaps(r);
      }
    }

    /** A range that overlaps an allocation overlaps the free space once it is free. */
    lemma NowOverlaps(r: Range)
      requires Placed(r) && Disjoint(allocations.Keys) && !ApartFrom(r, allocations.Keys)
      requires forall a :: In(r, a) ==> Covers(freeByStart, a)
      ensures exists f, x :: f in freeByStart && x in allocations.Keys && !Apart(f, x)
    {
      var x :| x in allocations.Keys && !Apart(r, x);
      var a := if r.start < x.start then x.start else r.start;
      assert In(r, a) && In(x, a) && Covers(freeByStart, a);
      var f :| f in freeByStart && In(f, a);
      assert !Apart(f, x);
    }

    /** What is apart from the old free ranges and from r is apart from the new free ranges. */
    lemma StillApart(before: set<Range>, r: Range)
      requires forall a :: Covers(freeByStart, a) <==> Covers(before, a) || In(r, a)
      requires forall f <- before, x <- allocations.Keys :: Apart(f, x)
      requires ApartFrom(r, allocations.Keys) && Tidy(freeByStart) && Disjoint(allocations.Keys)
      ensures forall f <- freeByStart, x <- allocations.Keys :: Apart(f, x)
    {
      forall f, x | f in freeByStart && x in allocations.Keys
        ensures Apart(f, x)
      {
        forall a | In(f, a)
          ensures !In(x, a)
        {
          assert Covers(freeByStart, a);
          if g :| g in before && In(g, a) {
            assert Apart(g, x);
          }
        }
        ApartPoints(f, x);
      }
    }

    /** A new entry of the allocated index takes a reference to its owner. */
    method AddFragment(r: Range, owner: Owner)
      requires TakenOk() && r !in allocations && Disjoint(allocations.Keys + {r}) && rangeCount == |allocations|
      modifies this`takenTree, this`allocations, this`rangeCount, owner
      ensures TakenOk() && allocations == old(allocations)[r := owner] && rangeCount == |allocations|
      ensures owner.refcount == old(owner.refcount) + 1 && owner.live == old(owner.live)
    {
      hide Put, Indexed, Elements;
      owner.AddRef();
      FreshStart(takenTree, r);
      IndexedIs(false, takenTree);
      PutCorrect(false, takenTree, r);
      takenTree := Put(false, takenTree, r);
      KeysPut(allocations, r, owner);
      allocations := allocations[r := owner];
      rangeCount := rangeCount + 1;
    }

    method DropFragment(r: Range)
      requires TakenOk() && r in allocations && rangeCount == |allocations|
      modifies this`takenTree, this`allocations, this`rangeCount
      ensures TakenOk() && allocations == old(allocations) - {r} && rangeCount == |allocations|
    {
      hide Drop, Indexed, Elements, Inorder, Sorted, Avl;
      assert r in allocations.Keys;
      DropCorrect(false, takenTree, r);
      IndexedIs(false, takenTree);
      takenTree := Drop(false, takenTree, r);
      allocations := allocations - {r};
      rangeCount := rangeCount - 1;
    }

    /** The fragment r is replaced by what is left of it; the new fragments take their references before the old one is given up. */
    method CutFragment(r: Range, overlap: Range)
      requires TakenOk() && Disjoint(allocations.Keys) && rangeCount == |allocations| && OwnersOk()
      requires r in allocations && Inside(overlap, r)
      modifies this`takenTree, this`allocations, this`rangeCount, allocations[r]
      ensures TakenOk() && allocations == Carved(old(allocations), r, overlap)
      ensures rangeCount == |allocations| && OwnersOk()
    {
      hide Disjoint, Count, Inside, TakenOk;
      ghost var m := allocations;
      CarvedDisjoint(m, r, overlap);
      CarvedSteps(m, r, overlap);
      var owner := allocations[r];
      ghost var n := owner.refcount;
      CountDrop(m, r, owner);
      DropFragment(r);
      var left, right := Range(r.start, overlap.start), Range(overlap.end, r.end);
      if Size(left) > 0 {
        AddFragment(left, owner);
      }
      if Size(right) > 0 {
        AddFragment(right, owner);
      }
      owner.DropRef();
      assert owner.refcount == n + Pieces(r, overlap) - 1;
      Recounted(m, r, overlap);
    }

    lemma Recounted(m: map<Range, Owner>, r: Range, overlap: Range)
      requires Disjoint(m.Keys) && r in m && Inside(overlap, r) && allocations == Carved(m, r, overlap)
      requires forall x <- m.Keys :: m[x] in owners
      requires forall o <- owners :: o != m[r] ==> o.refcount == Count(m, o) && (o.live <==> o.refcount > 0)
      requires m[r].refcount == Count(m, m[r]) + Pieces(r, overlap) - 1 && (m[r].live <==> m[r].refcount != 0)
      ensures OwnersOk()
    {
      hide Disjoint, Count, Inside;
      assert r in m.Keys;
      forall o | o in owners
        ensures o.refcount == Count(allocations, o) && (o.live <==> o.refcount > 0)
      {
        CarvedCount(m, r, overlap, o);
      }
      forall x | x in allocations.Keys
        ensures allocations[x] in owners
      {
        assert x in m.Keys || allocations[x] == m[r];
      }
    }

    /** _free_subrange: the overlap returns to the free indexes, what is left of the fragment keeps its owner. */
    method FreeSubrange(r: Range, overlap: Range)
      requires Valid() && r in allocations && Inside(overlap, r)
      modifies this`sizeTree, this`startTree, this`freeBySize, this`freeByStart
      modifies this`takenTree, this`allocations, this`rangeCount, allocations[r]
      ensures Valid() && allocations == Carved(old(allocations), r, overlap)
    {
      hide Tidy, Disjoint, Count, Covers, Diff, Carved, OwnersOk, Conserves, TakenOk, FreeTreesOk;
      ghost var before, m := freeByStart, allocations;
      CarvedDisjoint(m, r, overlap);
      CarvedCovers(m, r, overlap);
      CarvedApart(m, r, overlap, before);
      PlacedInside(m, r, overlap);
      CutFragment(r, overlap);
      CreateEmptyRangeNoLock(overlap);
      StillApart(before, overlap);
      ConservesMove(before, m.Keys, freeByStart, allocations.Keys, donated, overlap);
    }

    /**
     * free_range: the addresses of the argument that are allocated become free, and no others, unless the search for
     * the argument goes astray; then every allocation is freed. It stops at its assertion exactly if redundant frees
     * are not allowed and some address of the argument is not allocated.
     */
    method FreeRange(arg: Range) returns (ok: bool)
      requires Valid() && arg.start < WORD && arg.end < WORD
      modifies this`sizeTree, this`startTree, this`freeBySize, this`freeByStart
      modifies this`takenTree, this`allocations, this`rangeCount, owners
      ensures Valid()
      ensures ok <==> allowRedundantFrees || forall a :: In(arg, a) ==> old(Covers(allocations.Keys, a))
      ensures var gone := old(Freeing(takenTree, arg));
              ok ==>
                && Freed(owners, old(allocations), allocations, gone)
                && (forall a :: Covers(freeByStart, a) <==>
                      old(Covers(freeByStart, a)) || (In(gone, a) && old(Covers(allocations.Keys, a))))
                && (forall o <- owners :: o.live <==> exists a :: old(Owns(allocations, o, a)) && !In(gone, a))
      ensures ok ==> (Freed(owners, old(allocations), allocations, arg) <==> !old(Astray(takenTree, arg)))
      ensures ok && old(Astray(takenTree, arg)) ==> allocations == map[]
    {
      hide FreeTreesOk, Elements, Indexed, Astray, Freeing, Inorder, RootMisjudged;
      ghost var m, t := allocations, takenTree;
      ghost var gone := Freeing(t, arg);
      FreeIsRest();
      OwnersKnown();
      WhatGoes(t, arg, m.Keys);
      ok := FreeLoop(arg);
      FreeIsRest();
      OwnersKnown();
      if ok {
        FreedSpace(owners, m, allocations, gone);
        forall o | o in owners
          ensures o.live <==> exists a :: Owns(m, o, a) && !In(gone, a)
        {
          CountOwns(allocations, o);
          FreedOwner(owners, m, allocations, gone, o);
        }
        if Astray(t, arg) {
          FreedAll(owners, m, allocations, gone, arg);
        }
      }
    }

    method FreeLoop(arg: Range) returns (ok: bool)
      requires Valid() && arg.start < WORD && arg.end < WORD
      modifies this`sizeTree, this`startTree, this`freeBySize, this`freeByStart
      modifies this`takenTree, this`allocations, this`rangeCount, owners
      ensures Valid()
      ensures ok <==> allowRedundantFrees || forall a :: In(arg, a) ==> old(Covers(allocations.Keys, a))
      ensures ok ==> Freed(owners, old(allocations), allocations, old(Freeing(takenTree, arg)))
    {
      hide Tidy, Disjoint, Count, Covers, Diff, Carved, OwnersOk, Conserves, Freed, Owns, FreeOk, Intersect;
      hide Progress, Freeing, TakenOk, Indexed, Elements, Inorder, SearchAtMost, SearchAtLeast, RootMisjudged;
      hide LastAtMost, FirstAtLeast, CmpStart;
      ghost var m, t := allocations, takenTree;
      ghost var gone := Freeing(t, arg);
      var range := arg;
      ProgressStart(owners, m, takenTree, arg, !allowRedundantFrees);
      OwnersKnown();
      while Size(range) > 0
        invariant Valid() && range.end == arg.end && range.start < WORD
        invariant Progress(owners, m, allocations, gone, arg, range.start, !allowRedundantFrees)
        invariant range.start > HALF ==> takenTree == t
        decreases range.start > HALF, Size(range)
      {
        KeysPlaced(allocations);
        OwnersKnown();
        Searched(range);
        var first := SearchAtMost(false, takenTree, range);
        var overlap := if first.None? then Range(0, 0) else Intersect(range, first.value);
        if Size(overlap) == 0 {
          if !allowRedundantFrees {
            ProgressFail(owners, m, allocations, gone, arg, range.start, first);
            return false;
          }
          var next := SearchAtLeast(false, takenTree, range);
          ProgressSkip(owners, m, allocations, gone, takenTree, arg, range.start, first, next);
          if next.None? {
            return true;
          }
          assert CmpStart(next.value, range) > 0;
          range := Range(next.value.start, range.end);
        } else {
          ProgressTake(owners, m, allocations, gone, arg, range.start, first.value, overlap, !allowRedundantFrees);
          FreeSubrange(first.value, overlap);
          range := Range(overlap.end, range.end);
        }
      }
      ProgressDone(owners, m, allocations, t, arg, range.start, !allowRedundantFrees);
      return true;
    }

    /** allocate_range: the front of the best fitting free range, or nothing exactly when no run of free addresses is long enough. */
    method AllocateRange(size: nat, obj: UserObj) returns (out: Allocation, ghost owner: Owner?)
      requires Valid() && size < WORD
      modifies this`sizeTree, this`startTree, this`freeBySize, this`freeByStart
      modifies this`takenTree, this`allocations, this`rangeCount, this`owners
      ensures Valid()
      ensures out.Allocated? <==> size > 0 && exists a :: Run(old(freeByStart), a, size)
      ensures out.AssertionFailed? <==> size > 0 && old(RootTooSmall(sizeTree, size))
      ensures !out.Allocated? ==> freeByStart == old(freeByStart) && allocations == old(allocations) && owners == old(owners)
      ensures out.Allocated? ==>
                && owner != null && fresh(owner) && owner.obj == obj && owners == old(owners) + {owner}
                && out.range !in old(allocations) && allocations == old(allocations)[out.range := owner]
                && Size(out.range) == size && FrontOfBest(old(freeByStart), size, out.range)
                && forall a :: Covers(freeByStart, a) <==> old(Covers(freeByStart, a)) && !In(out.range, a)
    {
      hide Tidy, Disjoint, Count, Covers, Diff, OwnersOk, Conserves, BestFit, Run, FrontOfBest, TakenOk;
      hide Indexed, Elements, Inorder, SearchAtLeast;
      out, owner := NoRange, null;
      if size == 0 {
        return;
      }
      SearchBySize(sizeTree, size);
      var smallest := SearchAtLeast(true, sizeTree, Range(0, size));
      SearchFits(sizeTree, size, smallest);
      if smallest.Some? {
        var b := smallest.value;
        var consumed := Range(b.start, b.start + size);
        if Size(Intersect(consumed, b)) != size {
          return AssertionFailed, null;
        }
        owner := Consume(b, size, obj);
        out := Allocated(consumed);
      }
    }

    /** The front of the free range b goes to a new owner, the rest stays free. */
    method Consume(b: Range, size: nat, obj: UserObj) returns (owner: Owner)
      requires Valid() && b in freeBySize && 0 < size <= Size(b)
      modifies this`sizeTree, this`startTree, this`freeBySize, this`freeByStart
      modifies this`takenTree, this`allocations, this`rangeCount, this`owners
      ensures Valid() && fresh(owner) && owner.obj == obj && owners == old(owners) + {owner}
      ensures var used := Range(b.start, b.start + size);
              && used !in old(allocations) && allocations == old(allocations)[used := owner]
              && forall a :: Covers(freeByStart, a) <==> old(Covers(freeByStart, a)) && !In(used, a)
    {
      hide Tidy, Disjoint, Count, Covers, Diff, OwnersOk, Conserves, FreeTreesOk, TakenOk;
      var consumed, leftover := Range(b.start, b.start + size), Range(b.start + size, b.end);
      ghost var free, m := freeByStart, allocations;
      TakeFront(free, m, b, size);
      RemoveFreeRange(b);
      owner := Assign(consumed, obj);
      KeysPut(m, consumed, owner);
      if Size(leftover) > 0 {
        CreateEmptyRangeNoLock(leftover);
        StillApart(free - {b}, leftover);
      }
      ConservesTake(free, m.Keys, freeByStart, allocations.Keys, donated, consumed);
    }

    /** A new owner takes a range. */
    method Assign(r: Range, obj: UserObj) returns (owner: Owner)
      requires TakenOk() && r !in allocations && Disjoint(allocations.Keys + {r})
      requires rangeCount == |allocations| && OwnersOk()
      modifies this`takenTree, this`allocations, this`rangeCount, this`owners
      ensures TakenOk() && OwnersOk() && rangeCount == |allocations| && allocations == old(allocations)[r := owner]
      ensures fresh(owner) && owner.obj == obj && owners == old(owners) + {owner}
    {
      hide Count, TakenOk;
      ghost var m := allocations;
      assert forall o <- owners :: allocated(o);
      owner := new Owner(obj);
      AddFragment(r, owner);
      owners := owners + {owner};
      CountNone(m, owner);
      forall o | o in owners
        ensures o.refcount == Count(allocations, o) && (o.live <==> o.refcount > 0)
      {
        CountPut(m, r, owner, o);
      }
    }

    /** lookup_value: the allocation around an address, for every 32-bit value. */
    method LookupValue(value: nat) returns (found: Option<(Range, UserObj)>)
      requires Valid() && value < WORD
      ensures found.None? <==> !Covers(allocations.Keys, value)
      ensures found.Some? ==> var (r, obj) := found.value; r in allocations && In(r, value) && obj == allocations[r].obj
    {
      hide Indexed, Elements, Inorder, SearchAtMost, SearchAtLeast;
      KeysPlaced(allocations);
      SearchByStart(takenTree, Range(value, value + 1));
      var elt := SearchAtMost(false, takenTree, Range(value, value + 1));
      if elt.Some? && elt.value.start <= value < elt.value.end {
        assert In(elt.value, value) && elt.value in allocations.Keys;
        return Some((elt.value, allocations[elt.value].obj));
      }
      forall x | x in allocations.Keys
        ensures !In(x, value)
      {
        if value <= HALF && x.start <= value {
          assert x == elt.value || Apart(x, elt.value);
        }
      }
      return None;
    }

    /** Freeing a fresh allocation restores the free indexes and destroys its owner. */
    method AllocateThenFree(size: nat, obj: UserObj) returns (out: Allocation, ghost owner: Owner?)
      requires Valid() && size < WORD
      modifies this`sizeTree, this`startTree, this`freeBySize, this`freeByStart
      modifies this`takenTree, this`allocations, this`rangeCount, this`owners, owners
      ensures Valid() && freeBySize == old(freeBySize) && freeByStart == old(freeByStart)
      ensures out.Allocated? ==> owner != null && !owner.live && owners == old(owners) + {owner}
      ensures Freed(old(owners), old(allocations), allocations, Range(0, 0))
    {
      hide Tidy, Disjoint, Count, Covers, OwnersOk, Conserves, Owns, Freed, Run, FrontOfBest, TakenOk, FreeTreesOk;
      ghost var free, m, before := freeByStart, allocations, owners;
      OwnersKnown();
      FreedNothing(before, m);
      out, owner := AllocateRange(size, obj);
      if out.Allocated? {
        var r := out.range;
        Alone(m, r, owner);
        FrontCovered(free, size, r);
        KeysPlaced(allocations);
        assert r in allocations.Keys;
        var ok := FreeRange(r);
        TakenBack(before, m, r, owner, allocations, owners);
        TidyUnique(free, freeByStart);
      }
    }

    /** What the searches of free_range find in the allocated index. */
    lemma Searched(range: Range)
      requires Valid() && range.start < WORD
      ensures Indexed(false, takenTree) && Elements(takenTree) == allocations.Keys
      ensures range.start <= HALF ==>
                && LastAtMost(allocations.Keys, range.start, SearchAtMost(false, takenTree, range))
                && FirstAtLeast(allocations.Keys, range.start, SearchAtLeast(false, takenTree, range))
      ensures range.start > HALF ==>
                var first := if RootMisjudged(takenTree, range.start) then Some(Inorder(takenTree)[0].0) else None;
                SearchAtLeast(false, takenTree, range) == first
      ensures SearchAtMost(false, takenTree, range).Some? ==> SearchAtMost(false, takenTree, range).value in allocations
    {
      SearchByStart(takenTree, range);
    }

    /** An address is free exactly if it was donated and is not allocated. */
    lemma FreeIsRest()
      requires FreeOk() && SpaceOk()
      ensures forall a :: Covers(freeByStart, a) <==> Covers(donated, a) && !Covers(allocations.Keys, a)
    {
    }

    lemma OwnersKnown()
      requires OwnersOk()
      ensures forall r <- allocations.Keys :: allocations[r] in owners
    {
    }
  }

  ghost predicate Run(s: set<Range>, a: int, n: nat) {
    forall i :: a <= i < a + n ==> Covers(s, i)
  }

  /** r is the front of the best fit. */
  ghost predicate FrontOfBest(s: set<Range>, size: nat, r: Range) {
    exists b :: BestFit(s, size, Some(b)) && r == Range(b.start, b.start + size)
  }

  /** There is a fitting range exactly if there is a run. */
  lemma FitsRun(s: set<Range>, size: nat, r: Option<Range>)
    requires Tidy(s) && size > 0 && BestFit(s, size, r)
    ensures r.Some? <==> exists a :: Run(s, a, size)
    ensures r.Some? ==> r.value in s && Size(r.value) >= size && Placed(r.value)
    ensures r.Some? ==> FrontOfBest(s, size, Range(r.value.start, r.value.start + size))
  {
    if r.Some? {
      var b := r.value;
      forall i | b.start <= i < b.start + size
        ensures Covers(s, i)
      {
        assert In(b, i);
      }
      assert Run(s, b.start, size);
      assert r == Some(b);
    }
    if a :| Run(s, a, size) {
      var x := RunInside(s, a, size);
    }
  }

  lemma CountNone(m: map<Range, Owner>, o: Owner)
    requires forall r <- m.Keys :: m[r] != o
    ensures Count(m, o) == 0
  {
  }

  lemma ConservesTake(free: set<Range>, taken: set<Range>, free': set<Range>, taken': set<Range>, d: set<Range>, r: Range)
    requires Conserves(free, taken, d)
    requires forall a :: Covers(free', a) <==> Covers(free, a) && !In(r, a)
    requires forall a :: Covers(taken', a) <==> Covers(taken, a) || In(r, a)
    requires forall a :: In(r, a) ==> Covers(free, a)
    ensures Conserves(free', taken', d)
  {
  }

  /** A free range b gives up its first `size` addresses. */
  lemma TakeFront(free: set<Range>, m: map<Range, Owner>, b: Range, size: nat)
    requires Tidy(free) && b in free && 0 < size <= Size(b)
    requires Disjoint(m.Keys) && forall f <- free, x <- m.Keys :: Apart(f, x)
    ensures var rest, used, left := free - {b}, Range(b.start, b.start + size), Range(b.start + size, b.end);
            && Tidy(rest) && used !in m && Disjoint(m.Keys + {used}) && ApartFrom(left, rest)
            && (Size(left) > 0 ==> Placed(left) && ApartFrom(left, m.Keys + {used}))
            && (forall f <- rest, x <- m.Keys + {used} :: Apart(f, x))
            && (forall a :: In(used, a) ==> Covers(free, a))
            && (forall a :: Covers(rest, a) || In(left, a) <==> Covers(free, a) && !In(used, a))
            && (forall a :: Covers(m.Keys + {used}, a) <==> Covers(m.Keys, a) || In(used, a))
  {
    hide Covers;
    var rest, used, left := free - {b}, Range(b.start, b.start + size), Range(b.start + size, b.end);
    forall f | f in rest
      ensures Apart(left, f) && Apart(f, used)
    {
      assert Gap(f, b);
    }
    forall x | x in m.Keys
      ensures Apart(left, x) && Apart(used, x) && x != used
    {
      assert Apart(b, x) && Placed(x);
    }
    AddedCovers(m.Keys, used);
    AddedCovers(rest, b);
    assert rest + {b} == free;
    forall a
      ensures !(Covers(rest, a) && In(used, a))
    {
      NotCovered(rest, used, a);
    }
  }

  lemma NotCovered(s: set<Range>, r: Range, a: int)
    requires forall f <- s :: Apart(f, r)
    ensures !(Covers(s, a) && In(r, a))
  {
  }

  /** The part of the argument before k. */
  function Done(arg: Range, k: nat): Range {
    Range(arg.start, if k < arg.end then k else arg.end)
  }

  /** What the free has not reached yet is as it was. */
  lemma StillOwned(s: set<Owner>, m: map<Range, Owner>, m': map<Range, Owner>, arg: Range, k: nat)
    requires Freed(s, m, m', Done(arg, k)) && forall r <- m.Keys :: m[r] in s
    ensures In(arg, k) && Covers(m.Keys, k) ==> Covers(m'.Keys, k)
  {
    if In(arg, k) && Covers(m.Keys, k) {
      var r :| r in m.Keys && In(r, k);
      assert Owns(m, m[r], k);
      assert Owns(m', m[r], k);
      var r' :| r' in m' && In(r', k) && m'[r'] == m[r];
      assert r' in m'.Keys;
    }
  }

  lemma FreedSpace(s: set<Owner>, m: map<Range, Owner>, m': map<Range, Owner>, arg: Range)
    requires Freed(s, m, m', arg)
    requires (forall r <- m.Keys :: m[r] in s) && forall r <- m'.Keys :: m'[r] in s
    ensures forall a :: Covers(m'.Keys, a) <==> Covers(m.Keys, a) && !In(arg, a)
  {
    forall a
      ensures Covers(m'.Keys, a) <==> Covers(m.Keys, a) && !In(arg, a)
    {
      if r :| r in m.Keys && In(r, a) {
        assert Owns(m, m[r], a);
        if !In(arg, a) {
          assert Owns(m', m[r], a);
          var r' :| r' in m' && In(r', a) && m'[r'] == m[r];
          assert r' in m'.Keys;
        }
      }
      if r :| r in m'.Keys && In(r, a) {
        assert Owns(m', m'[r], a);
        var r' :| r' in m && In(r', a) && m[r'] == m'[r];
        assert r' in m.Keys;
      }
    }
  }

  lemma FreedOwner(s: set<Owner>, m: map<Range, Owner>, m': map<Range, Owner>, arg: Range, o: Owner)
    requires Freed(s, m, m', arg) && o in s
    ensures (exists a :: Owns(m', o, a)) <==> exists a :: Owns(m, o, a) && !In(arg, a)
  {
  }

  lemma FreedNothing(s: set<Owner>, m: map<Range, Owner>)
    ensures Freed(s, m, m, Range(0, 0))
  {
  }

  /** A new owner owns its one range. */
  lemma Alone(m: map<Range, Owner>, r: Range, o: Owner)
    requires r !in m && forall x <- m.Keys :: m[x] != o
    ensures forall a :: In(r, a) ==> Covers(m[r := o].Keys, a)
    ensures forall a :: Owns(m[r := o], o, a) ==> In(r, a)
  {
  }

  lemma FrontCovered(s: set<Range>, size: nat, r: Range)
    requires FrontOfBest(s, size, r)
    ensures forall a :: In(r, a) ==> Covers(s, a)
  {
  }

  lemma TakenBack(s: set<Owner>, m: map<Range, Owner>, r: Range, o: Owner, m': map<Range, Owner>, s': set<Owner>)
    requires s <= s' && o !in s && r !in m && Disjoint(m[r := o].Keys) && Freed(s', m[r := o], m', r)
    ensures Freed(s, m, m', Range(0, 0))
  {
    var put := m[r := o];
    forall q, a: int | q in s
      ensures Owns(m', q, a) <==> Owns(m, q, a) && !In(Range(0, 0), a)
    {
      assert Owns(m', q, a) <==> Owns(put, q, a) && !In(r, a);
      if Owns(put, q, a) {
        var x :| x in put && In(x, a) && put[x] == q;
        assert x in m && m[x] == q;
      }
      if Owns(m, q, a) {
        var x :| x in m && In(x, a) && m[x] == q;
        assert x in put.Keys && r in put.Keys && put[x] == q && Apart(x, r);
      }
    }
  }

  lemma KeysPlaced(m: map<Range, Owner>)
    requires Disjoint(m.Keys)
    ensures forall x <- m.Keys :: Placed(x)
  {
  }

  lemma FreshKeys(sizes: Index, starts: Index, r: Range)
    requires Indexed(true, sizes) && Indexed(false, starts) && Elements(sizes) == Elements(starts)
    requires Placed(r) && r !in Elements(starts) && Tidy(Elements(starts) + {r})
    ensures Fresh(Inorder(sizes), KeyOf(true, r)) && Fresh(Inorder(starts), KeyOf(false, r))
  {
    hide Avl, Sorted, Inorder;
    forall x | x in Inorder(sizes) + Inorder(starts)
      ensures Placed(x.0) && x.0.start != r.start
    {
      assert x.0 in Elements(starts) && Gap(x.0, r);
    }
    forall x | x in Inorder(sizes)
      ensures x.1 != KeyOf(true, r)
    {
      SizeKeys(x.0, r);
    }
  }

  lemma SizeKeys(x: Range, r: Range)
    requires Placed(x) && Placed(r)
    ensures KeyOf(true, x) == KeyOf(true, r) ==> x.start == r.start
  {
  }

  lemma FreshStart(t: Index, r: Range)
    requires Indexed(false, t) && r !in Elements(t) && Disjoint(Elements(t) + {r})
    ensures Placed(r) && Fresh(Inorder(t), KeyOf(false, r))
  {
    forall x | x in Inorder(t)
      ensures x.1 != KeyOf(false, r)
    {
      assert x.0 in Elements(t) && Apart(x.0, r);
    }
  }

  lemma IndexedIs(bySize: bool, t: Index)
    requires Indexed(bySize, t)
    ensures Sorted(Inorder(t)) && Avl(t)
  {
  }

  /** The intermediate indexes of a cut are disjoint too. */
  lemma CarvedSteps(m: map<Range, Owner>, r: Range, overlap: Range)
    requires Disjoint(m.Keys) && r in m && Inside(overlap, r)
    ensures var cut, l, g := m - {r}, Left(r, overlap), Right(r, overlap);
            && (Size(l) > 0 ==> Disjoint(cut.Keys + {l}))
            && (Size(g) > 0 ==> Disjoint((if Size(l) > 0 then cut[l := m[r]] else cut).Keys + {g}))
  {
    CarvedDisjoint(m, r, overlap);
    var cut, l, g, c := m - {r}, Left(r, overlap), Right(r, overlap), Carved(m, r, overlap);
    if Size(l) > 0 {
      assert forall x <- cut.Keys + {l} :: x in c.Keys;
    }
    if Size(g) > 0 {
      var cut' := if Size(l) > 0 then cut[l := m[r]] else cut;
      assert forall x <- cut'.Keys + {g} :: x in c.Keys;
    }
  }

  lemma KeysPut(m: map<Range, Owner>, r: Range, o: Owner)
    ensures m[r := o].Keys == m.Keys + {r}
  {
  }


  // ----- the loop of free_range

  /**
   * With the argument's addresses before k dealt with: the index is the old one without those of `gone` before k.
   * Beyond 2^31 nothing has happened yet. If redundant frees are not allowed, all those addresses were allocated.
   */
  ghost predicate Progress(s: set<Owner>, m: map<Range, Owner>, m': map<Range, Owner>, gone: Range, arg: Range, k: nat,
      strict: bool)
  {
    if k > HALF then
      k == arg.start && m' == m
    else
      && gone.start <= k && gone.end == arg.end && Freed(s, m, m', Done(gone, k))
      && (strict ==> gone == arg && forall a :: In(Done(arg, k), a) ==> Covers(m.Keys, a))
  }

  lemma WhatGoes(t: Index, arg: Range, keys: set<Range>)
    requires Indexed(false, t) && Elements(t) == keys
    ensures var gone := Freeing(t, arg);
            && gone.end == arg.end && (!Astray(t, arg) ==> gone == arg)
            && (Astray(t, arg) ==>
                  arg.start > HALF && Size(arg) > 0 && (exists x :: x in keys) && forall x <- keys :: gone.start <= x.start)
  {
    if Astray(t, arg) {
      var s := Inorder(t);
      assert s[0] in s && s[0].0 in Elements(t);
      forall x | x in keys
        ensures s[0].0.start <= x.start
      {
        var e :| e in s && e.0 == x;
      }
    }
  }

  lemma ProgressStart(s: set<Owner>, m: map<Range, Owner>, t: Index, arg: Range, strict: bool)
    ensures Progress(s, m, m, Freeing(t, arg), arg, arg.start, strict)
  {
  }

  lemma ProgressTake(s: set<Owner>, m: map<Range, Owner>, m': map<Range, Owner>, gone: Range, arg: Range, k: nat,
      r: Range, overlap: Range, strict: bool)
    requires Progress(s, m, m', gone, arg, k, strict) && Disjoint(m'.Keys) && forall x <- m'.Keys :: m'[x] in s
    requires r in m' && (k <= HALF ==> LastAtMost(m'.Keys, k, Some(r)))
    requires overlap == Intersect(Range(k, arg.end), r) && Size(overlap) > 0
    ensures Inside(overlap, r) && k <= HALF && overlap.start == k && k < overlap.end <= HALF
    ensures Progress(s, m, Carved(m', r, overlap), gone, arg, overlap.end, strict)
  {
    hide Carved, Freed, Owns;
    assert r in m'.Keys && Placed(r);
    assert Done(gone, k) == Range(gone.start, k) && Done(gone, overlap.end) == Range(gone.start, overlap.end);
    FreedCarved(s, m, m', gone.start, overlap, r);
    forall a | In(overlap, a)
      ensures Covers(m.Keys, a)
    {
      assert In(r, a);
      WasCovered(s, m, m', Done(gone, k), r, a);
    }
  }

  /** What is still allocated was allocated before. */
  lemma WasCovered(s: set<Owner>, m: map<Range, Owner>, m': map<Range, Owner>, gone: Range, r: Range, a: int)
    requires Freed(s, m, m', gone) && r in m' && m'[r] in s && In(r, a)
    ensures Covers(m.Keys, a)
  {
    assert Owns(m', m'[r], a);
    var r' :| r' in m && In(r', a) && m[r'] == m'[r];
    assert r' in m.Keys;
  }

  lemma ProgressFail(s: set<Owner>, m: map<Range, Owner>, m': map<Range, Owner>, gone: Range, arg: Range, k: nat,
      first: Option<Range>)
    requires Progress(s, m, m', gone, arg, k, true) && Disjoint(m'.Keys) && k < arg.end
    requires forall x <- m.Keys :: m[x] in s
    requires k <= HALF ==> LastAtMost(m'.Keys, k, first)
    requires first.Some? ==> Size(Intersect(Range(k, arg.end), first.value)) == 0
    ensures exists a :: In(arg, a) && !Covers(m.Keys, a)
  {
    hide Freed, Owns, Diff;
    forall x | x in m'.Keys
      ensures !In(x, k)
    {
      if k <= HALF {
        LastHolds(m'.Keys, k, first, x);
      }
    }
    if k <= HALF {
      StillOwned(s, m, m', arg, k);
    }
    assert In(arg, k);
  }

  lemma LastHolds(s: set<Range>, k: int, first: Option<Range>, x: Range)
    requires Disjoint(s) && LastAtMost(s, k, first) && x in s
    ensures In(x, k) ==> first == Some(x)
  {
  }

  /** A gap is skipped: there is nothing left to free, or the search goes on from the next range. */
  lemma ProgressSkip(s: set<Owner>, m: map<Range, Owner>, m': map<Range, Owner>, gone: Range, t: Index, arg: Range, k: nat,
      first: Option<Range>, next: Option<Range>)
    requires Progress(s, m, m', gone, arg, k, false) && Disjoint(m'.Keys) && k < arg.end && k < WORD
    requires Indexed(false, t) && Elements(t) == m'.Keys
    requires k > HALF ==> gone == Freeing(t, arg)
    requires k <= HALF ==> LastAtMost(m'.Keys, k, first) && FirstAtLeast(m'.Keys, k, next)
    requires k > HALF ==> next == if RootMisjudged(t, k) then Some(Inorder(t)[0].0) else None
    requires first.Some? ==> Size(Intersect(Range(k, arg.end), first.value)) == 0
    ensures next.None? ==> Freed(s, m, m', gone)
    ensures next.Some? ==>
              && CmpStart(next.value, Range(k, arg.end)) > 0 && next.value.start <= HALF && (k <= HALF ==> next.value.start > k)
              && Progress(s, m, m', gone, arg, next.value.start, false)
  {
    hide Freed, Owns, Diff, Indexed, Elements, Inorder, Freeing;
    if k <= HALF {
      GapEmpty(m'.Keys, k, first, next);
      if next.None? {
        FreedMore(s, m, m', gone.start, k, arg.end);
      } else {
        FreedMore(s, m, m', gone.start, k, Done(gone, next.value.start).end);
        StartMisleads(next.value, Range(k, arg.end));
      }
    } else {
      SkipBeyond(s, m, gone, t, arg, next);
    }
  }

  lemma SkipBeyond(s: set<Owner>, m: map<Range, Owner>, gone: Range, t: Index, arg: Range, next: Option<Range>)
    requires Indexed(false, t) && Elements(t) == m.Keys && HALF < arg.start < arg.end && arg.start < WORD
    requires gone == Freeing(t, arg)
    requires next == if RootMisjudged(t, arg.start) then Some(Inorder(t)[0].0) else None
    ensures next.None? ==> Freed(s, m, m, gone)
    ensures next.Some? ==>
              && CmpStart(next.value, arg) > 0 && next.value.start <= HALF
              && Progress(s, m, m, gone, arg, next.value.start, false)
  {
    hide Diff;
    WhatGoes(t, arg, m.Keys);
    if next.None? {
      forall o, a: int | o in s && Owns(m, o, a)
        ensures !In(gone, a)
      {
        var r :| r in m && In(r, a) && m[r] == o;
        assert r in m.Keys && r in Elements(t);
      }
    } else {
      assert Inorder(t)[0] in Inorder(t);
      StartMisleads(next.value, arg);
      RootIn(t);
      assert t.node in m.Keys;
    }
  }

  lemma RootIn(t: Index)
    requires t.Fork?
    ensures t.node in Elements(t)
  {
    assert (t.node, t.key) in Inorder(t);
  }

  lemma ProgressDone(s: set<Owner>, m: map<Range, Owner>, m': map<Range, Owner>, t: Index, arg: Range, k: nat, strict: bool)
    requires k >= arg.end
    requires Progress(s, m, m', Freeing(t, arg), arg, k, strict)
    ensures Freed(s, m, m', Freeing(t, arg)) && (strict ==> forall a :: In(arg, a) ==> Covers(m.Keys, a))
  {
  }

  lemma StartCovered(s: set<Range>, r: Range)
    requires Disjoint(s)
    ensures r in s ==> Covers(s, r.start)
  {
    assert r in s ==> In(r, r.start);
  }

  lemma FreedAll(s: set<Owner>, m: map<Range, Owner>, m': map<Range, Owner>, gone: Range, arg: Range)
    requires Freed(s, m, m', gone) && Disjoint(m.Keys) && Disjoint(m'.Keys)
    requires gone.end == arg.end && HALF < arg.start < arg.end
    requires (forall r <- m.Keys :: m[r] in s) && forall r <- m'.Keys :: m'[r] in s
    requires (exists x :: x in m.Keys) && forall x <- m.Keys :: gone.start <= x.start
    ensures m' == map[] && !Freed(s, m, m', arg)
  {
    FreedSpace(s, m, m', gone);
    forall r
      ensures r !in m'.Keys
    {
      assert !Covers(m.Keys, r.start) || In(gone, r.start);
      StartCovered(m'.Keys, r);
    }
    var x :| x in m.Keys;
    assert In(x, x.start) && Owns(m, m[x], x.start);
    assert !Owns(m', m[x], x.start);
  }

  /** What allocate_range finds: a fit exactly if there is a run, and a range that is too small exactly if the root misleads. */
  lemma SearchFits(t: Index, size: nat, r: Option<Range>)
    requires Indexed(true, t) && Tidy(Elements(t)) && 0 < size < WORD
    requires size <= HALF ==> BestFit(Elements(t), size, r)
    requires size > HALF ==>
               && r == (if RootTooSmall(t, size) then Some(Inorder(t)[0].0) else None)
               && forall x <- Elements(t) :: Size(x) < size
    ensures (exists a :: Run(Elements(t), a, size)) <==> r.Some? && Size(r.value) >= size
    ensures r.Some? ==> r.value in Elements(t) && Placed(r.value)
    ensures r.Some? && Size(r.value) >= size ==> FrontOfBest(Elements(t), size, Range(r.value.start, r.value.start + size))
    ensures RootTooSmall(t, size) <==> r.Some? && Size(r.value) < size
  {
    hide Run, FrontOfBest;
    if size <= HALF {
      FitsRun(Elements(t), size, r);
    } else {
      FitsRun(Elements(t), size, None);
      if r.Some? {
        assert Inorder(t)[0] in Inorder(t);
      }
    }
  }


  // ----- runs

  /** One free range, and then a request for all of it. */
  lemma OnlyRun(s: set<Range>, n: nat)
    requires Tidy(s) && 0 < n && forall a :: Covers(s, a) <==> 0 <= a < n
    ensures s == {Range(0, n)}
  {
    assert Covers(s, 0) && Covers(s, n - 1) && !Covers(s, n);
    var r :| r in s && In(r, 0);
    var q :| q in s && In(q, n - 1);
    forall x | x in s
      ensures x == Range(0, n)
    {
      assert In(x, x.start) && In(x, x.end - 1);
      assert Covers(s, x.start) && Covers(s, x.end - 1);
      StartsAtZero(s, n, x);
      EndsAt(s, n, x);
    }
  }

  lemma StartsAtZero(s: set<Range>, n: nat, x: Range)
    requires Tidy(s) && x in s && forall a :: Covers(s, a) <==> 0 <= a < n
    ensures x.start == 0
  {
    assert In(x, x.start) && Covers(s, x.start);
    if x.start > 0 {
      assert Covers(s, x.start - 1);
      var y :| y in s && In(y, x.start - 1);
      assert false;
    }
  }

  lemma EndsAt(s: set<Range>, n: nat, x: Range)
    requires Tidy(s) && x in s && forall a :: Covers(s, a) <==> 0 <= a < n
    ensures x.end == n
  {
    assert In(x, x.end - 1) && Covers(s, x.end - 1);
    if x.end < n {
      assert Covers(s, x.end);
      var y :| y in s && In(y, x.end);
      assert false;
    }
  }

  lemma FrontOfOnly(n: nat, size: nat, r: Range)
    requires FrontOfBest({Range(0, n)}, size, r)
    ensures r == Range(0, size)
  {
  }

  /** The first n addresses are donated and then allocated. */
  method DonateAndTake(a: CoalescingAllocator, n: nat) returns (ghost owner: Owner)
    requires a.Valid() && a.freeByStart == {} && a.allocations == map[] && 0 < n <= HALF
    modifies a
    ensures a.Valid() && a.freeByStart == {} && a.allocations == map[Range(0, n) := owner]
    ensures fresh(owner) && owner.live && a.owners == old(a.owners) + {owner}
    ensures a.donated == old(a.donated) + {Range(0, n)}
  {
    a.CreateEmptyRange(Range(0, n));
    assert a.Valid();
    OnlyRun(a.freeByStart, n);
    assert Run(a.freeByStart, 0, n);
    ghost var free := a.freeByStart;
    var out, o := a.AllocateRange(n, 0);
    owner := o;
    FrontOfOnly(n, n, out.range);
    if r :| r in a.freeByStart {
      assert In(r, r.start);
      assert Covers(a.freeByStart, r.start);
    }
  }

  /** A range that is donated again while it is allocated is both free and allocated. */
  method DonatedTwice() returns (a: CoalescingAllocator)
    ensures fresh(a) && !a.SpaceOk() && Covers(a.freeByStart, 0) && Covers(a.allocations.Keys, 0)
  {
    a := new CoalescingAllocator(true);
    ghost var owner := DonateAndTake(a, 16);
    a.CreateEmptyRange(Range(0, 16));
  }

  lemma OnlyRoot(t: Index, r: Range)
    requires Elements(t) == {r}
    ensures t.Fork? && t.node == r
  {
    assert r in Elements(t);
    RootIn(t);
  }

  /** Freeing addresses beyond 2^31 that were never donated frees the allocation at address 0. */
  method FreedElsewhere() returns (a: CoalescingAllocator)
    ensures fresh(a) && a.Valid() && Covers(a.freeByStart, 0) && a.allocations == map[]
  {
    a := new CoalescingAllocator(true);
    hide Indexed, Elements, Inorder, Conserves, Disjoint, Tidy, Count, Freed, Owns, Freeing;
    ghost var owner := DonateAndTake(a, 16);
    OnlyRoot(a.takenTree, Range(0, 16));
    var ok := a.FreeRange(Range(0x8000_0010, 0x8000_0020));
    a.FreeIsRest();
    assert In(Range(0, 16), 0);
  }

  /** A request for more than 2^31 addresses stops at an assertion when only a small range is free. */
  method LargeRequest() returns (out: Allocation)
    ensures out == AssertionFailed
  {
    var a := new CoalescingAllocator(true);
    a.CreateEmptyRange(Range(0, 16));
    OnlyRun(a.freeByStart, 16);
    OnlyRoot(a.sizeTree, Range(0, 16));
    hide *;
    ghost var o;
    out, o := a.AllocateRange(0x9000_0000, 0);
  }
}
