/**
 * The shape of an AVL tree as a value: which node sits where, with its key and its balance tag.
 * The rebalancing walks are functions over a subtree and the path above it.
 */
module AvlShape {
  import opened Common


  datatype Side = LeftSide | RightSide

  datatype Balance = New | LeftHeavy | Balanced | RightHeavy

  function Opposite(side: Side): Side {
    if side == LeftSide then RightSide else LeftSide
  }

  function Heavy(side: Side): Balance {
    if side == LeftSide then LeftHeavy else RightHeavy
  }

  /** N is the type of node references. */
  datatype Tree<N> =
    | Nil
    | Fork(node: N, key: int, bal: Balance, left: Tree<N>, right: Tree<N>)

  /** A position: the frames from the parent of the hole up to the root. */
  datatype Path<N> =
    | Top
    | Up(side: Side, node: N, key: int, bal: Balance, other: Tree<N>, up: Path<N>)

  /** A node whose subtree on `side` is `sub`. */
  function Make<N>(node: N, key: int, bal: Balance, side: Side, sub: Tree<N>, other: Tree<N>): (t: Tree<N>)
    ensures t.Fork? && t.node == node && t.key == key && t.bal == bal
    ensures Kid(t, side) == sub && Kid(t, Opposite(side)) == other
  {
    if side == LeftSide then Fork(node, key, bal, sub, other) else Fork(node, key, bal, other, sub)
  }

  function Kid<N>(t: Tree<N>, side: Side): Tree<N>
    requires t.Fork?
  {
    if side == LeftSide then t.left else t.right
  }

  function Plug<N>(t: Tree<N>, path: Path<N>): Tree<N>
    decreases path
  {
    match path
    case Top => t
    case Up(side, n, k, b, other, up) => Plug(Make(n, k, b, side, t, other), up)
  }

  function Height<N>(t: Tree<N>): nat {
    match t
    case Nil => 0
    case Fork(_, _, _, l, r) => 1 + Max(Height(l), Height(r))
  }

  /** Nodes with their keys, in order. */
  function Inorder<N>(t: Tree<N>): seq<(N, int)> {
    match t
    case Nil => []
    case Fork(n, k, _, l, r) => Inorder(l) + [(n, k)] + Inorder(r)
  }

  /** The tag that the two depths call for. */
  function TagFor(l: int, r: int): Balance {
    if l > r then LeftHeavy else if l < r then RightHeavy else Balanced
  }

  /** Depths differ by at most one everywhere, and every tag says how. */
  predicate Avl<N>(t: Tree<N>) {
    match t
    case Nil => true
    case Fork(_, _, b, l, r) =>
      && Avl(l) && Avl(r)
      && -1 <= Height(l) - Height(r) <= 1
      && b == TagFor(Height(l), Height(r))
  }

  /** The same for the frames of a path, when the subtree in the hole has depth h. */
  predicate AvlPath<N>(path: Path<N>, h: int)
    decreases path
  {
    match path
    case Top => true
    case Up(side, _, _, b, other, up) =>
      && Avl(other)
      && -1 <= h - Height(other) <= 1
      && b == SideTag(side, h, Height(other))
      && AvlPath(up, 1 + Max(h, Height(other)))
  }

  function SideTag(side: Side, sub: int, other: int): Balance {
    if sub > other then Heavy(side) else if sub < other then Heavy(Opposite(side)) else Balanced
  }

  lemma MakeFacts<N>(n: N, k: int, b: Balance, side: Side, sub: Tree<N>, other: Tree<N>)
    ensures Height(Make(n, k, b, side, sub, other)) == 1 + Max(Height(sub), Height(other))
    ensures Avl(Make(n, k, b, side, sub, other)) <==>
              Avl(sub) && Avl(other) && -1 <= Height(sub) - Height(other) <= 1
              && b == SideTag(side, Height(sub), Height(other))
  {
  }

  lemma {:induction false} PlugAvl<N>(t: Tree<N>, path: Path<N>)
    requires Avl(t) && AvlPath(path, Height(t))
    ensures Avl(Plug(t, path))
    decreases path
  {
    if path.Up? {
      MakeFacts(path.node, path.key, path.bal, path.side, t, path.other);
      PlugAvl(Make(path.node, path.key, path.bal, path.side, t, path.other), path.up);
    }
  }

  /** Same nodes in the same order: whatever surrounds the hole, the whole trees agree too. */
  lemma {:induction false} PlugInorder<N>(t: Tree<N>, t': Tree<N>, path: Path<N>)
    requires Inorder(t) == Inorder(t')
    ensures Inorder(Plug(t, path)) == Inorder(Plug(t', path))
    decreases path
  {
    if path.Up? {
      PlugInorder(Make(path.node, path.key, path.bal, path.side, t, path.other),
                  Make(path.node, path.key, path.bal, path.side, t', path.other), path.up);
    }
  }

  // ----- rotations

  /** The child on the heavy side replaces its parent. Both tags become Balanced. */
  function SingleRotate<N>(t: Tree<N>, side: Side): Tree<N>
    requires t.Fork? && Kid(t, side).Fork?
  {
    var c := Kid(t, side);
    Make(c.node, c.key, Balanced, side, Kid(c, side),
         Make(t.node, t.key, Balanced, side, Kid(c, Opposite(side)), Kid(t, Opposite(side))))
  }

  /** The grandchild on the inner side replaces its grandparent. */
  function DoubleRotate<N>(t: Tree<N>, side: Side): Tree<N>
    requires t.Fork? && Kid(t, side).Fork? && Kid(Kid(t, side), Opposite(side)).Fork?
  {
    var c := Kid(t, side);
    var g := Kid(c, Opposite(side));
    var sb := if g.bal == Heavy(side) then Heavy(Opposite(side)) else Balanced;
    var cb := if g.bal == Heavy(Opposite(side)) then Heavy(side) else Balanced;
    Make(g.node, g.key, Balanced, side,
         Make(c.node, c.key, cb, side, Kid(c, side), Kid(g, side)),
         Make(t.node, t.key, sb, side, Kid(g, Opposite(side)), Kid(t, Opposite(side))))
  }

  /** Nodes in order, seen from one side. */
  function Around<N>(side: Side, x: (N, int), sub: seq<(N, int)>, other: seq<(N, int)>): seq<(N, int)> {
    if side == LeftSide then sub + [x] + other else other + [x] + sub
  }

  lemma ForkInorder<N>(t: Tree<N>, side: Side)
    requires t.Fork?
    ensures Inorder(t) == Around(side, (t.node, t.key), Inorder(Kid(t, side)), Inorder(Kid(t, Opposite(side))))
  {
  }

  lemma AroundRotate<N>(side: Side, x: (N, int), y: (N, int), a: seq<(N, int)>, b: seq<(N, int)>, d: seq<(N, int)>)
    ensures Around(side, x, a, Around(side, y, b, d)) == Around(side, y, Around(side, x, a, b), d)
  {
  }

  lemma SingleInorder<N>(t: Tree<N>, side: Side)
    requires t.Fork? && Kid(t, side).Fork?
    ensures Inorder(SingleRotate(t, side)) == Inorder(t)
  {
    hide Inorder, Around;
    var c := Kid(t, side);
    var r := SingleRotate(t, side);
    ForkInorder(t, side);
    ForkInorder(c, side);
    ForkInorder(r, side);
    ForkInorder(Kid(r, Opposite(side)), side);
    AroundRotate(side, (c.node, c.key), (t.node, t.key),
                 Inorder(Kid(c, side)), Inorder(Kid(c, Opposite(side))), Inorder(Kid(t, Opposite(side))));
  }

  lemma DoubleInorder<N>(t: Tree<N>, side: Side)
    requires t.Fork? && Kid(t, side).Fork? && Kid(Kid(t, side), Opposite(side)).Fork?
    ensures Inorder(DoubleRotate(t, side)) == Inorder(t)
  {
    hide Inorder, Around;
    var c := Kid(t, side);
    var g := Kid(c, Opposite(side));
    var r := DoubleRotate(t, side);
    ForkInorder(t, side);
    ForkInorder(c, side);
    ForkInorder(g, side);
    ForkInorder(r, side);
    ForkInorder(Kid(r, side), side);
    ForkInorder(Kid(r, Opposite(side)), side);
    var x, y, z := (c.node, c.key), (g.node, g.key), (t.node, t.key);
    var a, m, b, d := Inorder(Kid(c, side)), Inorder(Kid(g, side)), Inorder(Kid(g, Opposite(side))), Inorder(Kid(t, Opposite(side)));
    AroundRotate(side, x, y, a, m, b);
    AroundRotate(side, y, z, Around(side, x, a, m), b, d);
  }

  // ----- the walk after an insertion

  /** What the parent of a grown subtree is told: its old depth was h, and it is now one deeper. */
  predicate Grown<N>(sub: Tree<N>, h: int) {
    && sub.Fork? && Avl(sub) && Height(sub) == h + 1
    && (h == 0 || sub.bal != Balanced)
  }

  /** t still carries the tag for the depth of its `side` subtree before that grew. */
  predicate AddedPre<N>(t: Tree<N>, side: Side, path: Path<N>) {
    && t.Fork? && Kid(t, side).Fork?
    && var sub, other := Kid(t, side), Kid(t, Opposite(side));
       var h := Height(sub) - 1;
    && Grown(sub, h) && Avl(other) && -1 <= h - Height(other) <= 1
    && t.bal == SideTag(side, h, Height(other))
    && AvlPath(path, 1 + Max(h, Height(other)))
  }

  lemma AddedShape<N>(t: Tree<N>, side: Side, path: Path<N>)
    requires AddedPre(t, side, path) && t.bal == Heavy(side) && Kid(t, side).bal != Heavy(side)
    ensures Kid(t, side).bal == Heavy(Opposite(side)) && Kid(Kid(t, side), Opposite(side)).Fork?
  {
  }

  /** The subtree after its root has dealt with the growth on `side`, and whether it has become deeper. */
  function Regrown<N>(t: Tree<N>, side: Side, path: Path<N>): (Tree<N>, bool)
    requires AddedPre(t, side, path)
  {
    if t.bal == Heavy(Opposite(side)) then (t.(bal := Balanced), false)
    else if t.bal == Balanced then (t.(bal := Heavy(side)), true)
    else if Kid(t, side).bal == Heavy(side) then (SingleRotate(t, side), false)
    else
      AddedShape(t, side, path);
      (DoubleRotate(t, side), false)
  }

  /** Every tree is its root with its two subtrees, from either side. */
  lemma Remake<N>(t: Tree<N>, side: Side)
    requires t.Fork?
    ensures t == Make(t.node, t.key, t.bal, side, Kid(t, side), Kid(t, Opposite(side)))
  {
  }

  /** A rotation of an overgrown subtree restores its old depth and every tag. */
  lemma SingleAfterInsert<N>(t: Tree<N>, side: Side, path: Path<N>)
    requires AddedPre(t, side, path) && t.bal == Heavy(side) && Kid(t, side).bal == Heavy(side)
    ensures Avl(SingleRotate(t, side)) && Height(SingleRotate(t, side)) == Height(t) - 1
  {
  }

  /** The tags of the double rotation: depths of the outer, the two inner and the light subtree. */
  lemma DoubleTags(side: Side, outer: int, gs: int, go: int, light: int)
    requires -1 <= gs - go <= 1 && outer == Max(gs, go) && outer == light
    ensures var gb := SideTag(side, gs, go);
            var sb := if gb == Heavy(side) then Heavy(Opposite(side)) else Balanced;
            var cb := if gb == Heavy(Opposite(side)) then Heavy(side) else Balanced;
            && -1 <= outer - gs <= 1 && cb == SideTag(side, outer, gs)
            && -1 <= go - light <= 1 && sb == SideTag(side, go, light)
            && Max(outer, gs) == outer && Max(go, light) == outer
  {
  }

  /** The double rotation, for a subtree whose two depths differ by two and whose child leans inward. */
  lemma DoubleRestores<N>(t: Tree<N>, side: Side)
    requires t.Fork? && Kid(t, side).Fork?
    requires Avl(Kid(t, side)) && Avl(Kid(t, Opposite(side)))
    requires Height(Kid(t, side)) == Height(Kid(t, Opposite(side))) + 2
    requires Kid(t, side).bal == Heavy(Opposite(side))
    ensures Kid(Kid(t, side), Opposite(side)).Fork?
    ensures Avl(DoubleRotate(t, side)) && Height(DoubleRotate(t, side)) == Height(t) - 1
  {
    hide Avl, Height;
    var c, a := Kid(t, side), Kid(t, Opposite(side));
    Remake(c, side);
    MakeFacts(c.node, c.key, c.bal, side, Kid(c, side), Kid(c, Opposite(side)));
    var g := Kid(c, Opposite(side));
    NilFlat(g);
    Remake(g, side);
    MakeFacts(g.node, g.key, g.bal, side, Kid(g, side), Kid(g, Opposite(side)));
    Remake(t, side);
    MakeFacts(t.node, t.key, t.bal, side, c, a);
    var sb := if g.bal == Heavy(side) then Heavy(Opposite(side)) else Balanced;
    var cb := if g.bal == Heavy(Opposite(side)) then Heavy(side) else Balanced;
    DoubleTags(side, Height(Kid(c, side)), Height(Kid(g, side)), Height(Kid(g, Opposite(side))), Height(a));
    MakeFacts(c.node, c.key, cb, side, Kid(c, side), Kid(g, side));
    MakeFacts(t.node, t.key, sb, side, Kid(g, Opposite(side)), a);
    MakeFacts(g.node, g.key, Balanced, side,
              Make(c.node, c.key, cb, side, Kid(c, side), Kid(g, side)),
              Make(t.node, t.key, sb, side, Kid(g, Opposite(side)), a));
  }

  lemma NilFlat<N>(t: Tree<N>)
    ensures t.Nil? <==> Height(t) == 0
  {
  }

  lemma RegrownCorrect<N>(t: Tree<N>, side: Side, path: Path<N>)
    requires AddedPre(t, side, path)
    ensures var (r, more) := Regrown(t, side, path);
            && r.Fork? && Avl(r) && Inorder(r) == Inorder(t)
            && if more then Grown(r, Height(r) - 1) && AvlPath(path, Height(r) - 1) else AvlPath(path, Height(r))
  {
    hide Inorder, Avl, Height;
    var sub, other := Kid(t, side), Kid(t, Opposite(side));
    Remake(t, side);
    MakeFacts(t.node, t.key, t.bal, side, sub, other);
    if t.bal == Balanced || t.bal == Heavy(Opposite(side)) {
      var b := if t.bal == Balanced then Heavy(side) else Balanced;
      Remake(t.(bal := b), side);
      MakeFacts(t.node, t.key, b, side, sub, other);
      TagInorder(t, b);
    } else if sub.bal == Heavy(side) {
      SingleAfterInsert(t, side, path);
      SingleInorder(t, side);
    } else {
      AddedShape(t, side, path);
      DoubleRestores(t, side);
      DoubleInorder(t, side);
    }
  }

  lemma AddedUp<N>(r: Tree<N>, path: Path<N>)
    requires path.Up? && Grown(r, Height(r) - 1) && AvlPath(path, Height(r) - 1)
    ensures AddedPre(Make(path.node, path.key, path.bal, path.side, r, path.other), path.side, path.up)
  {
    hide Avl, Height;
  }

  /** rightAdded and leftAdded, which mirror each other: the subtree on `side` has become one deeper. */
  function Added<N>(t: Tree<N>, side: Side, path: Path<N>): Tree<N>
    requires AddedPre(t, side, path)
    decreases path
  {
    RegrownCorrect(t, side, path);
    var (r, more) := Regrown(t, side, path);
    if !more then Plug(r, path)
    else if path.Top? then r
    else
      AddedUp(r, path);
      Added(Make(path.node, path.key, path.bal, path.side, r, path.other), path.side, path.up)
  }

  lemma {:induction false} AddedCorrect<N>(t: Tree<N>, side: Side, path: Path<N>)
    requires AddedPre(t, side, path)
    ensures Avl(Added(t, side, path)) && Inorder(Added(t, side, path)) == Inorder(Plug(t, path))
    decreases path
  {
    hide Avl, Height, Inorder, Regrown, AddedPre, Grown;
    RegrownCorrect(t, side, path);
    var (r, more) := Regrown(t, side, path);
    PlugInorder(r, t, path);
    if !more {
      PlugAvl(r, path);
    } else if path.Up? {
      AddedUp(r, path);
      AddedCorrect(Make(path.node, path.key, path.bal, path.side, r, path.other), path.side, path.up);
    }
  }

  // ----- the walk after a deletion

  /** t still carries the tag for the depth of its `side` subtree before that shrank. */
  predicate ShorterPre<N>(t: Tree<N>, side: Side, path: Path<N>) {
    && t.Fork?
    && var sub, other := Kid(t, side), Kid(t, Opposite(side));
       var h := Height(sub) + 1;
    && Avl(sub) && Avl(other) && -1 <= h - Height(other) <= 1
    && t.bal == SideTag(side, h, Height(other))
    && AvlPath(path, 1 + Max(h, Height(other)))
  }

  /** The single rotation as gotOneShorter leaves it when the heavy child was balanced: tags repaired. */
  function SingleRotateRetagged<N>(t: Tree<N>, heavy: Side): Tree<N>
    requires t.Fork? && Kid(t, heavy).Fork?
  {
    var c := Kid(t, heavy);
    Make(c.node, c.key, Heavy(Opposite(heavy)), heavy, Kid(c, heavy),
         Make(t.node, t.key, Heavy(heavy), heavy, Kid(c, Opposite(heavy)), Kid(t, Opposite(heavy))))
  }

  lemma ShorterShape<N>(t: Tree<N>, side: Side, path: Path<N>)
    requires ShorterPre(t, side, path) && t.bal == Heavy(Opposite(side))
    ensures Kid(t, Opposite(side)).Fork?
    ensures Kid(t, Opposite(side)).bal == Heavy(side) ==> Kid(Kid(t, Opposite(side)), side).Fork?
    ensures Kid(t, Opposite(side)).bal in {Heavy(side), Heavy(Opposite(side)), Balanced}
  {
  }

  /** The subtree after gotOneShorter has dealt with its root, and whether it has become less deep. */
  function Shrunk<N>(t: Tree<N>, side: Side, path: Path<N>): (Tree<N>, bool)
    requires ShorterPre(t, side, path)
  {
    var heavy := Opposite(side);
    if t.bal == Balanced then (t.(bal := Heavy(heavy)), false)
    else if t.bal == Heavy(side) then (t.(bal := Balanced), true)
    else
      ShorterShape(t, side, path);
      var c := Kid(t, heavy);
      if c.bal == Heavy(heavy) then (SingleRotate(t, heavy), true)
      else if c.bal == Heavy(side) then (DoubleRotate(t, heavy), true)
      else (SingleRotateRetagged(t, heavy), false)
  }

  lemma ShrunkCorrect<N>(t: Tree<N>, side: Side, path: Path<N>)
    requires ShorterPre(t, side, path)
    ensures var (r, less) := Shrunk(t, side, path);
            && Avl(r) && Inorder(r) == Inorder(t)
            && AvlPath(path, if less then Height(r) + 1 else Height(r))
  {
    hide Inorder, Avl, Height;
    var heavy := Opposite(side);
    var sub, other := Kid(t, side), Kid(t, heavy);
    Remake(t, side);
    MakeFacts(t.node, t.key, t.bal, side, sub, other);
    if t.bal == Balanced || t.bal == Heavy(side) {
      var b := if t.bal == Balanced then Heavy(heavy) else Balanced;
      var r := t.(bal := b);
      Remake(r, side);
      MakeFacts(t.node, t.key, b, side, sub, other);
      TagInorder(t, b);
    } else {
      ShorterShape(t, side, path);
      if other.bal == Heavy(side) {
        DoubleRestores(t, heavy);
        DoubleInorder(t, heavy);
      } else {
        RotateAfterDelete(t, heavy);
        SingleInorder(t, heavy);
        RetagInorder(t, heavy);
      }
    }
  }

  lemma TagInorder<N>(t: Tree<N>, b: Balance)
    requires t.Fork?
    ensures Inorder(t.(bal := b)) == Inorder(t)
  {
  }

  lemma RetagInorder<N>(t: Tree<N>, heavy: Side)
    requires t.Fork? && Kid(t, heavy).Fork?
    ensures Inorder(SingleRotateRetagged(t, heavy)) == Inorder(SingleRotate(t, heavy))
  {
  }

  /** Both single-rotation cases of a deletion: the plain tags fit one, the repaired tags the other. */
  lemma RotateAfterDelete<N>(t: Tree<N>, heavy: Side)
    requires t.Fork? && Kid(t, heavy).Fork?
    requires Avl(Kid(t, heavy)) && Avl(Kid(t, Opposite(heavy)))
    requires Height(Kid(t, heavy)) == Height(Kid(t, Opposite(heavy))) + 2
    requires Kid(t, heavy).bal != Heavy(Opposite(heavy))
    ensures Kid(t, heavy).bal == Heavy(heavy) ==>
              Avl(SingleRotate(t, heavy)) && Height(SingleRotate(t, heavy)) == Height(t) - 1
    ensures Kid(t, heavy).bal == Balanced ==>
              Avl(SingleRotateRetagged(t, heavy)) && Height(SingleRotateRetagged(t, heavy)) == Height(t)
  {
    hide Avl, Height;
    var c, a := Kid(t, heavy), Kid(t, Opposite(heavy));
    var outer, inner := Kid(c, heavy), Kid(c, Opposite(heavy));
    Remake(c, heavy);
    Remake(t, heavy);
    MakeFacts(c.node, c.key, c.bal, heavy, outer, inner);
    MakeFacts(t.node, t.key, t.bal, heavy, c, a);
    MakeFacts(t.node, t.key, Balanced, heavy, inner, a);
    MakeFacts(t.node, t.key, Heavy(heavy), heavy, inner, a);
    MakeFacts(c.node, c.key, Balanced, heavy, outer, Make(t.node, t.key, Balanced, heavy, inner, a));
    MakeFacts(c.node, c.key, Heavy(Opposite(heavy)), heavy, outer, Make(t.node, t.key, Heavy(heavy), heavy, inner, a));
  }

  lemma ShorterUp<N>(r: Tree<N>, path: Path<N>)
    requires Avl(r) && AvlPath(path, Height(r) + 1) && path.Up?
    ensures ShorterPre(Make(path.node, path.key, path.bal, path.side, r, path.other), path.side, path.up)
  {
    hide Avl, Height;
  }

  /** gotOneShorter: the subtree of t on `side` has become one less deep. */
  function Shorter<N>(t: Tree<N>, side: Side, path: Path<N>): Tree<N>
    requires ShorterPre(t, side, path)
    decreases path
  {
    ShrunkCorrect(t, side, path);
    var (r, less) := Shrunk(t, side, path);
    if !less then Plug(r, path)
    else if path.Top? then r
    else
      ShorterUp(r, path);
      Shorter(Make(path.node, path.key, path.bal, path.side, r, path.other), path.side, path.up)
  }

  lemma {:induction false} ShorterCorrect<N>(t: Tree<N>, side: Side, path: Path<N>)
    requires ShorterPre(t, side, path)
    ensures Avl(Shorter(t, side, path)) && Inorder(Shorter(t, side, path)) == Inorder(Plug(t, path))
    decreases path
  {
    hide Avl, Height, Inorder, Shrunk, ShorterPre;
    ShrunkCorrect(t, side, path);
    var (r, less) := Shrunk(t, side, path);
    PlugInorder(r, t, path);
    if !less {
      PlugAvl(r, path);
    } else if path.Up? {
      ShorterUp(r, path);
      ShorterCorrect(Make(path.node, path.key, path.bal, path.side, r, path.other), path.side, path.up);
    }
  }

  /** A subtree one less deep than before is put into the hole of a path. */
  function Lift<N>(sub: Tree<N>, path: Path<N>): Tree<N>
    requires Avl(sub) && AvlPath(path, Height(sub) + 1)
  {
    if path.Top? then sub
    else
      ShorterUp(sub, path);
      Shorter(Make(path.node, path.key, path.bal, path.side, sub, path.other), path.side, path.up)
  }

  lemma LiftCorrect<N>(sub: Tree<N>, path: Path<N>)
    requires Avl(sub) && AvlPath(path, Height(sub) + 1)
    ensures Avl(Lift(sub, path)) && Inorder(Lift(sub, path)) == Inorder(Plug(sub, path))
  {
    if path.Up? {
      ShorterUp(sub, path);
      ShorterCorrect(Make(path.node, path.key, path.bal, path.side, sub, path.other), path.side, path.up);
    }
  }

  // ----- what lies before and after a position

  function Before<N>(path: Path<N>): seq<(N, int)> {
    match path
    case Top => []
    case Up(side, n, k, _, other, up) =>
      if side == LeftSide then Before(up) else Before(up) + Inorder(other) + [(n, k)]
  }

  function After<N>(path: Path<N>): seq<(N, int)> {
    match path
    case Top => []
    case Up(side, n, k, _, other, up) =>
      if side == LeftSide then [(n, k)] + Inorder(other) + After(up) else After(up)
  }

  lemma {:induction false} PlugAround<N>(t: Tree<N>, path: Path<N>)
    ensures Inorder(Plug(t, path)) == Before(path) + Inorder(t) + After(path)
    decreases path
  {
    if path.Up? {
      hide Inorder;
      var m := Make(path.node, path.key, path.bal, path.side, t, path.other);
      PlugAround(m, path.up);
      ForkInorder(m, path.side);
      Regroup([(path.node, path.key)], Inorder(t), Inorder(path.other), Before(path.up), After(path.up));
    }
  }

  lemma Regroup<T>(x: seq<T>, i: seq<T>, o: seq<T>, b: seq<T>, a: seq<T>)
    ensures b + (i + x + o) + a == b + i + (x + o + a)
    ensures b + (o + x + i) + a == (b + o + x) + i + a
  {
  }

  // ----- insertion at a free position

  function InsertAt<N>(n: N, k: int, path: Path<N>): Tree<N>
    requires AvlPath(path, 0)
  {
    var leaf := Fork(n, k, Balanced, Nil, Nil);
    if path.Top? then leaf
    else
      LeafGrown(n, k);
      AddedUp(leaf, path);
      Added(Make(path.node, path.key, path.bal, path.side, leaf, path.other), path.side, path.up)
  }

  lemma LeafGrown<N>(n: N, k: int)
    ensures Grown(Fork(n, k, Balanced, Nil, Nil), 0) && Height(Fork(n, k, Balanced, Nil, Nil)) == 1
  {
  }

  lemma InsertAtCorrect<N>(n: N, k: int, path: Path<N>)
    requires AvlPath(path, 0)
    ensures Avl(InsertAt(n, k, path))
    ensures Inorder(InsertAt(n, k, path)) == Before(path) + [(n, k)] + After(path)
  {
    var leaf := Fork(n, k, Balanced, Nil, Nil);
    assert Inorder(leaf) == [(n, k)];
    PlugAround(leaf, path);
    if path.Up? {
      LeafGrown(n, k);
      AddedUp(leaf, path);
      AddedCorrect(Make(path.node, path.key, path.bal, path.side, leaf, path.other), path.side, path.up);
    }
  }

  // ----- deletion

  function Leftmost<N>(t: Tree<N>): (s: Tree<N>)
    requires t.Fork?
    ensures s.Fork? && s.left.Nil?
  {
    if t.left.Nil? then t else Leftmost(t.left)
  }

  /** The path to the leftmost node of t, when t itself sits in the hole of `base`. */
  function LeftmostPath<N>(t: Tree<N>, base: Path<N>): Path<N>
    requires t.Fork?
    decreases t
  {
    if t.left.Nil? then base
    else LeftmostPath(t.left, Up(LeftSide, t.node, t.key, t.bal, t.right, base))
  }

  lemma {:induction false} LeftmostAvl<N>(t: Tree<N>, base: Path<N>)
    requires t.Fork? && Avl(t) && AvlPath(base, Height(t))
    ensures Avl(Leftmost(t)) && AvlPath(LeftmostPath(t, base), Height(Leftmost(t)))
    decreases t
  {
    if t.left.Fork? {
      LeftmostAvl(t.left, Up(LeftSide, t.node, t.key, t.bal, t.right, base));
    }
  }

  lemma {:induction false} LeftmostInorder<N>(t: Tree<N>, base: Path<N>)
    requires t.Fork?
    ensures Before(LeftmostPath(t, base)) == Before(base)
    ensures Inorder(Leftmost(t)) + After(LeftmostPath(t, base)) == Inorder(t) + After(base)
    decreases t
  {
    if t.left.Fork? {
      var up := Up(LeftSide, t.node, t.key, t.bal, t.right, base);
      LeftmostInorder(t.left, up);
      assert Inorder(t.left) + ([(t.node, t.key)] + Inorder(t.right) + After(base))
          == (Inorder(t.left) + [(t.node, t.key)] + Inorder(t.right)) + After(base);
    }
  }

  lemma EmptySide<N>(t: Tree<N>)
    requires t.Fork? && Avl(t)
    ensures Avl(t.left) && Avl(t.right)
    ensures t.left.Nil? ==> Height(t) == Height(t.right) + 1
    ensures t.right.Nil? ==> Height(t) == Height(t.left) + 1
  {
  }

  /** What removal asserts of a node that lacks a child. */
  lemma OnlyChildIsLeaf<N>(t: Tree<N>, side: Side)
    requires t.Fork? && Avl(t) && Kid(t, side).Nil?
    ensures var other := Kid(t, Opposite(side));
            (other.Nil? && t.bal == Balanced)
            || (other.Fork? && t.bal == Heavy(Opposite(side)) && other.bal == Balanced && other.left.Nil? && other.right.Nil?)
  {
  }

  /** The frame of the removed node with its in-order successor s in its place. */
  function SuccessorFrame<N>(t: Tree<N>, path: Path<N>): Path<N>
    requires t.Fork? && t.right.Fork?
  {
    var s := Leftmost(t.right);
    Up(RightSide, s.node, s.key, t.bal, t.left, path)
  }

  lemma SuccessorAvl<N>(t: Tree<N>, path: Path<N>)
    requires t.Fork? && t.right.Fork? && Avl(t) && AvlPath(path, Height(t))
    ensures var s := Leftmost(t.right);
            && Avl(s.right)
            && AvlPath(LeftmostPath(t.right, SuccessorFrame(t, path)), Height(s.right) + 1)
  {
    LeftmostAvl(t.right, SuccessorFrame(t, path));
    EmptySide(Leftmost(t.right));
  }

  /** Deletion of the root of the subtree t that sits in the hole of `path`. */
  function RemoveAt<N>(t: Tree<N>, path: Path<N>): Tree<N>
    requires t.Fork? && Avl(t) && AvlPath(path, Height(t))
  {
    EmptySide(t);
    if t.left.Nil? then Lift(t.right, path)
    else if t.right.Nil? then Lift(t.left, path)
    else
      SuccessorAvl(t, path);
      Lift(Leftmost(t.right).right, LeftmostPath(t.right, SuccessorFrame(t, path)))
  }

  lemma RemoveAtCorrect<N>(t: Tree<N>, path: Path<N>)
    requires t.Fork? && Avl(t) && AvlPath(path, Height(t))
    ensures Avl(RemoveAt(t, path))
    ensures Inorder(RemoveAt(t, path)) == Before(path) + Inorder(t.left) + Inorder(t.right) + After(path)
  {
    hide Lift, Plug, Leftmost, LeftmostPath, SuccessorFrame, Avl, Height, AvlPath, Before, After, Inorder;
    EmptySide(t);
    NilInorder<N>();
    if t.left.Nil? {
      LiftCorrect(t.right, path);
      PlugAround(t.right, path);
    } else if t.right.Nil? {
      LiftCorrect(t.left, path);
      PlugAround(t.left, path);
    } else {
      SuccessorAvl(t, path);
      SuccessorInorder(t, path);
      LiftCorrect(Leftmost(t.right).right, LeftmostPath(t.right, SuccessorFrame(t, path)));
    }
  }

  lemma NilInorder<N>()
    ensures Inorder<N>(Nil) == []
  {
  }

  lemma SuccessorInorder<N>(t: Tree<N>, path: Path<N>)
    requires t.Fork? && t.right.Fork?
    ensures Inorder(Plug(Leftmost(t.right).right, LeftmostPath(t.right, SuccessorFrame(t, path))))
         == Before(path) + Inorder(t.left) + Inorder(t.right) + After(path)
  {
    hide Plug, LeftmostPath, Leftmost, After;
    var s := Leftmost(t.right);
    var base := SuccessorFrame(t, path);
    var deep := LeftmostPath(t.right, base);
    LeftmostInorder(t.right, base);
    PlugAround(s.right, deep);
    AfterRight(base);
    var x, p, l, r, a, z := [(s.node, s.key)], Before(path), Inorder(t.left), Inorder(t.right), After(deep), Inorder(s.right);
    ForkInorder(s, LeftSide);
    assert Inorder(s) == x + z by {
      assert [] + x + z == x + z;
    }
    SuccessorConcat(p, l, x, z, a, r, After(path));
  }

  lemma SuccessorConcat<T>(p: seq<T>, l: seq<T>, x: seq<T>, z: seq<T>, a: seq<T>, r: seq<T>, q: seq<T>)
    requires (x + z) + a == r + q
    ensures (p + l + x) + z + a == p + l + r + q
  {
    assert (p + l + x) + z + a == p + l + ((x + z) + a);
    assert p + l + r + q == p + l + (r + q);
  }

  lemma AfterRight<N>(base: Path<N>)
    requires base.Up? && base.side == RightSide
    ensures After(base) == After(base.up)
  {
  }

  // ----- how many nodes a depth takes

  function Fib(n: nat): nat {
    if n < 2 then n else Fib(n - 1) + Fib(n - 2)
  }

  lemma {:induction false} FibMono(a: nat, b: nat)
    requires a <= b
    ensures Fib(a) <= Fib(b)
    decreases b
  {
    if a < b {
      FibMono(a, b - 1);
    }
  }

  lemma FibStep(h: nat)
    ensures Fib(h + 2) == Fib(h + 1) + Fib(h)
  {
  }

  /** A tree of depth h has at least Fib(h+2)-1 nodes. */
  lemma {:induction false} DepthBound<N>(t: Tree<N>)
    requires Avl(t)
    ensures |Inorder(t)| >= Fib(Height(t) + 2) - 1
  {
    if t.Fork? {
      hide Fib;
      DepthBound(t.left);
      DepthBound(t.right);
      var h := Height(t);
      FibStep(h);
      if Height(t.left) >= Height(t.right) {
        FibMono(h, Height(t.right) + 2);
      } else {
        FibMono(h, Height(t.left) + 2);
      }
    }
  }
}
