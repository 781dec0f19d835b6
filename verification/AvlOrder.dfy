/** Keys in order: what insertion, deletion and searching mean for the in-order sequence of a tree. */
module AvlOrder {
  import opened AvlShape

  predicate Sorted<N>(s: seq<(N, int)>) {
    forall i, j :: 0 <= i < j < |s| ==> s[i].1 < s[j].1
  }

  ghost predicate AllBelow<N>(s: seq<(N, int)>, k: int) {
    forall x <- s :: x.1 < k
  }

  ghost predicate AllAbove<N>(s: seq<(N, int)>, k: int) {
    forall x <- s :: k < x.1
  }

  ghost predicate Fresh<N>(s: seq<(N, int)>, k: int) {
    forall x <- s :: x.1 != k
  }

  /** The sequence with x put before the first entry whose key is not smaller. */
  function Inserted<N>(s: seq<(N, int)>, x: (N, int)): seq<(N, int)> {
    if s == [] then [x]
    else if s[0].1 < x.1 then [s[0]] + Inserted(s[1..], x)
    else [x] + s
  }

  /** The sequence without the entries of key k. */
  function Without<N>(s: seq<(N, int)>, k: int): seq<(N, int)> {
    if s == [] then []
    else if s[0].1 == k then Without(s[1..], k)
    else [s[0]] + Without(s[1..], k)
  }

  lemma {:induction false} InsertedAt<N>(a: seq<(N, int)>, b: seq<(N, int)>, x: (N, int))
    requires AllBelow(a, x.1) && AllAbove(b, x.1)
    ensures Inserted(a + b, x) == a + [x] + b
    decreases |a|
  {
    if a == [] {
      assert a + b == b && a + [x] + b == [x] + b;
    } else {
      InsertedAt(a[1..], b, x);
      assert (a + b)[1..] == a[1..] + b;
      assert a + [x] + b == [a[0]] + (a[1..] + [x] + b);
    }
  }

  lemma {:induction false} WithoutFresh<N>(s: seq<(N, int)>, k: int)
    requires Fresh(s, k)
    ensures Without(s, k) == s
    decreases |s|
  {
    if s != [] {
      WithoutFresh(s[1..], k);
    }
  }

  lemma {:induction false} WithoutAt<N>(a: seq<(N, int)>, b: seq<(N, int)>, x: (N, int))
    requires Fresh(a, x.1) && Fresh(b, x.1)
    ensures Without(a + [x] + b, x.1) == a + b
    decreases |a|
  {
    var s := a + [x] + b;
    if a == [] {
      assert s == [x] + b && s[1..] == b && a + b == b;
      WithoutFresh(b, x.1);
    } else {
      WithoutAt(a[1..], b, x);
      assert s[1..] == a[1..] + [x] + b;
      assert a + b == [a[0]] + (a[1..] + b);
    }
  }

  lemma SortedParts<N>(a: seq<(N, int)>, x: (N, int), b: seq<(N, int)>)
    requires Sorted(a + [x] + b)
    ensures Sorted(a) && Sorted(b) && AllBelow(a, x.1) && AllAbove(b, x.1)
  {
    var s := a + [x] + b;
    assert forall i :: 0 <= i < |a| ==> s[i] == a[i];
    assert s[|a|] == x;
    assert forall i :: 0 <= i < |b| ==> s[|a| + 1 + i] == b[i];
  }

  lemma SortedJoin<N>(a: seq<(N, int)>, x: (N, int), b: seq<(N, int)>)
    requires Sorted(a) && Sorted(b) && AllBelow(a, x.1) && AllAbove(b, x.1)
    ensures Sorted(a + [x] + b) && Sorted(a + b)
  {
  }

  /** A sorted sequence has one place for a key that it lacks, and inserting there keeps it sorted. */
  lemma {:induction false} InsertedSorted<N>(s: seq<(N, int)>, x: (N, int))
    requires Sorted(s) && Fresh(s, x.1)
    ensures Sorted(Inserted(s, x)) && multiset(Inserted(s, x)) == multiset(s) + multiset{x}
    ensures Without(Inserted(s, x), x.1) == s
  {
    var a, b := SplitAt(s, x.1);
    InsertedAt(a, b, x);
    SortedPartsOf(a, b);
    SortedJoin(a, x, b);
    WithoutAt(a, b, x);
  }

  lemma SortedPartsOf<N>(a: seq<(N, int)>, b: seq<(N, int)>)
    requires Sorted(a + b)
    ensures Sorted(a) && Sorted(b)
  {
    assert forall i :: 0 <= i < |a| ==> (a + b)[i] == a[i];
    assert forall i :: 0 <= i < |b| ==> (a + b)[|a| + i] == b[i];
  }

  lemma {:induction false} SplitAt<N>(s: seq<(N, int)>, k: int) returns (a: seq<(N, int)>, b: seq<(N, int)>)
    requires Sorted(s) && Fresh(s, k)
    ensures s == a + b && AllBelow(a, k) && AllAbove(b, k)
    decreases |s|
  {
    if s == [] || k < s[0].1 {
      a, b := [], s;
    } else {
      assert s[0] in s;
      a, b := SplitAt(s[1..], k);
      a := [s[0]] + a;
      assert s == [s[0]] + s[1..];
    }
  }

  // ----- the descent of an insertion

  /** The free position that the descent reaches: to the right past smaller keys, else to the left. */
  function Seat<N>(t: Tree<N>, k: int, path: Path<N>): Path<N>
    decreases t
  {
    match t
    case Nil => path
    case Fork(n, key, b, l, r) =>
      if key < k then Seat(r, k, Up(RightSide, n, key, b, l, path))
      else Seat(l, k, Up(LeftSide, n, key, b, r, path))
  }

  lemma {:induction false} SeatAvl<N>(t: Tree<N>, k: int, path: Path<N>)
    requires Avl(t) && AvlPath(path, Height(t))
    ensures AvlPath(Seat(t, k, path), 0)
    decreases t
  {
    if t.Fork? {
      if t.key < k {
        SeatAvl(t.right, k, Up(RightSide, t.node, t.key, t.bal, t.left, path));
      } else {
        SeatAvl(t.left, k, Up(LeftSide, t.node, t.key, t.bal, t.right, path));
      }
    }
  }

  /** The seat has every smaller key before it, every larger one after it, and nothing is lost. */
  lemma {:induction false} SeatSplits<N>(t: Tree<N>, k: int, path: Path<N>)
    requires Sorted(Inorder(t)) && Fresh(Inorder(t), k) && AllBelow(Before(path), k) && AllAbove(After(path), k)
    ensures AllBelow(Before(Seat(t, k, path)), k) && AllAbove(After(Seat(t, k, path)), k)
    ensures Before(Seat(t, k, path)) + After(Seat(t, k, path)) == Before(path) + Inorder(t) + After(path)
    decreases t
  {
    hide Sorted, Fresh, AllBelow, AllAbove;
    if t.Fork? {
      var x := (t.node, t.key);
      var il, ir := Inorder(t.left), Inorder(t.right);
      SortedParts(il, x, ir);
      FreshParts(il, x, ir, k);
      assert Inorder(t) == il + [x] + ir;
      if t.key < k {
        BelowJoin(Before(path), il, x, k);
        SeatSplits(t.right, k, Up(RightSide, t.node, t.key, t.bal, t.left, path));
        Shuffle(Before(path), il, x, ir, After(path));
      } else {
        AboveJoin(x, ir, After(path), k);
        SeatSplits(t.left, k, Up(LeftSide, t.node, t.key, t.bal, t.right, path));
        Shuffle(Before(path), il, x, ir, After(path));
      }
    }
  }

  lemma Shuffle<T>(p: seq<T>, a: seq<T>, x: T, b: seq<T>, q: seq<T>)
    ensures (p + a + [x]) + b + q == p + (a + [x] + b) + q == p + a + ([x] + b + q)
  {
  }

  lemma FreshParts<N>(a: seq<(N, int)>, x: (N, int), b: seq<(N, int)>, k: int)
    requires Fresh(a + [x] + b, k)
    ensures Fresh(a, k) && Fresh(b, k) && x.1 != k
  {
  }

  lemma BelowJoin<N>(p: seq<(N, int)>, a: seq<(N, int)>, x: (N, int), k: int)
    requires AllBelow(p, k) && AllBelow(a, x.1) && x.1 < k
    ensures AllBelow(p + a + [x], k)
  {
  }

  lemma AboveJoin<N>(x: (N, int), b: seq<(N, int)>, q: seq<(N, int)>, k: int)
    requires AllAbove(q, k) && AllAbove(b, x.1) && k < x.1
    ensures AllAbove([x] + b + q, k)
  {
  }

  /** Insertion of a fresh key: the tree stays balanced and its entries are those of the sorted insertion. */
  lemma InsertCorrect<N>(t: Tree<N>, n: N, k: int)
    requires Avl(t) && Sorted(Inorder(t)) && Fresh(Inorder(t), k)
    ensures AvlPath(Seat(t, k, Top), 0)
    ensures Avl(InsertAt(n, k, Seat(t, k, Top)))
    ensures Inorder(InsertAt(n, k, Seat(t, k, Top))) == Inserted(Inorder(t), (n, k))
  {
    hide Seat, InsertAt, Inserted, Avl, Sorted, Inorder;
    var seat := Seat(t, k, Path<N>.Top);
    SeatAvl(t, k, Top);
    SeatSplits(t, k, Top);
    InsertAtCorrect(n, k, seat);
    InsertedAt(Before(seat), After(seat), (n, k));
    assert [] + Inorder(t) + [] == Inorder(t);
  }

  /** Deletion of the node in the hole of a path. */
  lemma RemoveCorrect<N>(t: Tree<N>, path: Path<N>)
    requires t.Fork? && Avl(t) && AvlPath(path, Height(t)) && Sorted(Inorder(Plug(t, path)))
    ensures Avl(RemoveAt(t, path))
    ensures Inorder(RemoveAt(t, path)) == Without(Inorder(Plug(t, path)), t.key)
    ensures Sorted(Inorder(RemoveAt(t, path))) && |Inorder(RemoveAt(t, path))| == |Inorder(Plug(t, path))| - 1
  {
    hide RemoveAt, Plug, Avl, AvlPath, Before, After, Without;
    var x, il, ir := (t.node, t.key), Inorder(t.left), Inorder(t.right);
    var a, b := Before(path) + il, ir + After(path);
    RemoveAtCorrect(t, path);
    PlugAround(t, path);
    assert Before(path) + (il + [x] + ir) + After(path) == a + [x] + b;
    assert Before(path) + il + ir + After(path) == a + b;
    SortedParts(a, x, b);
    SortedJoin(a, x, b);
    WithoutAt(a, b, x);
  }

  lemma TreeParts<N>(t: Tree<N>)
    requires t.Fork? && Sorted(Inorder(t))
    ensures Sorted(Inorder(t.left)) && Sorted(Inorder(t.right))
    ensures AllBelow(Inorder(t.left), t.key) && AllAbove(Inorder(t.right), t.key)
    ensures forall x :: x in Inorder(t) <==> x in Inorder(t.left) || x == (t.node, t.key) || x in Inorder(t.right)
  {
    SortedParts(Inorder(t.left), (t.node, t.key), Inorder(t.right));
  }

  // ----- the consistency checker

  /** The ordering that the checker tests: each node against its children only. */
  predicate LocallyOrdered<N>(t: Tree<N>) {
    t.Fork? ==>
      && (t.left.Fork? ==> t.left.key < t.key)
      && (t.right.Fork? ==> t.key < t.right.key)
      && LocallyOrdered(t.left) && LocallyOrdered(t.right)
  }

  lemma {:induction false} SortedIsLocal<N>(t: Tree<N>)
    requires Sorted(Inorder(t))
    ensures LocallyOrdered(t)
  {
    if t.Fork? {
      TreeParts(t);
      SortedIsLocal(t.left);
      SortedIsLocal(t.right);
      if t.left.Fork? {
        assert (t.left.node, t.left.key) in Inorder(t.left);
      }
      if t.right.Fork? {
        assert (t.right.node, t.right.key) in Inorder(t.right);
      }
    }
  }

  /** A balanced tree that the checker accepts although its keys are out of order. */
  lemma LocalIsNotSorted<N>(n: N)
    ensures var low := Fork(n, 1, RightHeavy, Nil, Fork(n, 9, Balanced, Nil, Nil));
            var t := Fork(n, 5, LeftHeavy, low, Fork(n, 7, Balanced, Nil, Nil));
            Avl(t) && LocallyOrdered(t) && !Sorted(Inorder(t))
  {
    var low := Fork(n, 1, RightHeavy, Nil, Fork(n, 9, Balanced, Nil, Nil));
    var t := Fork(n, 5, LeftHeavy, low, Fork(n, 7, Balanced, Nil, Nil));
    assert Height(t.right) == 1 && Height(low.right) == 1 && Height(low) == 2;
    assert Avl(low.right) && Avl(t.right) && Avl(low);
    assert Inorder(low.right) == [(n, 9)] && Inorder(t.right) == [(n, 7)];
    assert Inorder(low) == [(n, 1), (n, 9)];
    assert Inorder(t) == [(n, 1), (n, 9), (n, 5), (n, 7)];
    assert Inorder(t)[1].1 > Inorder(t)[2].1;
  }
}
