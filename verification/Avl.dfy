/** The AVL tree on the heap: nodes with parent links and stored balance tags, changed in place. */
module Avl {
  import opened AvlShape
  import opened AvlOrder

  class Node {
    var key: int
    var left: Node?
    var right: Node?
    var parent: Node?
    var balance: Balance

    constructor (k: int)
      ensures key == k && left == null && right == null && parent == null && balance == New
    {
      key, left, right, parent, balance := k, null, null, null, New;
    }

    function Child(side: Side): Node?
      reads this
    {
      if side == LeftSide then left else right
    }

    method SetChild(side: Side, c: Node?)
      modifies this
      ensures Child(side) == c && Child(Opposite(side)) == old(Child(Opposite(side)))
      ensures key == old(key) && parent == old(parent) && balance == old(balance)
    {
      if side == LeftSide {
        left := c;
      } else {
        right := c;
      }
    }
  }

  type Shape = Tree<Node>
  type Trail = Path<Node>

  ghost function Root(t: Shape): Node? {
    if t.Nil? then null else t.node
  }

  ghost function Nodes(t: Shape): set<Node> {
    match t
    case Nil => {}
    case Fork(n, _, _, l, r) => {n} + Nodes(l) + Nodes(r)
  }

  /** The heap below a node is the given tree: every field of every node, including the parent links. */
  ghost predicate Rep(t: Shape, parent: Node?)
    reads Nodes(t)
  {
    t.Fork? ==>
      && t.node.key == t.key && t.node.balance == t.bal && t.node.parent == parent
      && t.node.left == Root(t.left) && t.node.right == Root(t.right)
      && t.node !in Nodes(t.left) && t.node !in Nodes(t.right) && Nodes(t.left) !! Nodes(t.right)
      && Rep(t.left, t.node) && Rep(t.right, t.node)
  }

  lemma NodesSide(t: Shape, side: Side)
    requires t.Fork?
    ensures Nodes(t) == {t.node} + Nodes(Kid(t, side)) + Nodes(Kid(t, Opposite(side)))
    ensures t.node in Nodes(t)
  {
  }

  lemma RootInside(t: Shape)
    ensures t.Fork? ==> Root(t) in Nodes(t) && t.node in Nodes(t)
    ensures t.Nil? ==> Root(t) == null && Nodes(t) == {}
  {
  }

  /** A represented tree, seen from one side. */
  lemma RepElim(t: Shape, side: Side, parent: Node?)
    requires t.Fork? && Rep(t, parent)
    ensures var n, sub, other := t.node, Kid(t, side), Kid(t, Opposite(side));
            && n.key == t.key && n.balance == t.bal && n.parent == parent
            && n.Child(side) == Root(sub) && n.Child(Opposite(side)) == Root(other)
            && n !in Nodes(sub) && n !in Nodes(other) && Nodes(sub) !! Nodes(other)
            && Rep(sub, n) && Rep(other, n)
            && Nodes(t) == {n} + Nodes(sub) + Nodes(other)
  {
  }

  lemma RepIntro(n: Node, side: Side, sub: Shape, other: Shape)
    requires n.Child(side) == Root(sub) && n.Child(Opposite(side)) == Root(other)
    requires n !in Nodes(sub) && n !in Nodes(other) && Nodes(sub) !! Nodes(other)
    requires Rep(sub, n) && Rep(other, n)
    ensures Rep(Make(n, n.key, n.balance, side, sub, other), n.parent)
    ensures Nodes(Make(n, n.key, n.balance, side, sub, other)) == {n} + Nodes(sub) + Nodes(other)
  {
    hide Rep, Nodes, Root;
    if side == LeftSide {
      RepFork(n, sub, other);
    } else {
      RepFork(n, other, sub);
    }
  }

  lemma RepFork(n: Node, l: Shape, r: Shape)
    requires n.left == Root(l) && n.right == Root(r) && n !in Nodes(l) && n !in Nodes(r) && Nodes(l) !! Nodes(r)
    requires Rep(l, n) && Rep(r, n)
    ensures Rep(Fork(n, n.key, n.balance, l, r), n.parent)
    ensures Nodes(Fork(n, n.key, n.balance, l, r)) == {n} + Nodes(l) + Nodes(r)
  {
    hide Root;
  }

  ghost function TrailNodes(path: Trail): set<Node> {
    match path
    case Top => {}
    case Up(_, n, _, _, other, up) => {n} + Nodes(other) + TrailNodes(up)
  }

  ghost function TrailParent(path: Trail): Node? {
    if path.Top? then null else path.node
  }

  /** The heap above a subtree whose root is `hole`. */
  ghost predicate RepTrail(path: Trail, hole: Node?)
    reads TrailNodes(path)
    decreases path
  {
    match path
    case Top => true
    case Up(side, n, k, b, other, up) =>
      && n.key == k && n.balance == b && n.parent == TrailParent(up)
      && n.Child(side) == hole && n.Child(Opposite(side)) == Root(other)
      && n !in Nodes(other) && n !in TrailNodes(up) && Nodes(other) !! TrailNodes(up)
      && Rep(other, n) && RepTrail(up, n)
  }

  /** The node at the top of a path with the given subtree root in its hole. */
  ghost function Summit(path: Trail, hole: Node?): Node? {
    if path.Top? then hole else Summit(path.up, path.node)
  }

  // ----- what the searches return

  /** r holds the greatest key that is below k (or equal to it, when `orEqual`); null when there is none. */
  ghost predicate Predecessor(s: seq<(Node, int)>, k: int, orEqual: bool, r: Node?)
    reads r
  {
    if r == null then
      forall x <- s :: x.1 > k || (x.1 == k && !orEqual)
    else
      && (r, r.key) in s && (r.key < k || (r.key == k && orEqual))
      && forall x <- s :: x.1 < k || (x.1 == k && orEqual) ==> x.1 <= r.key
  }

  /** r holds the least key that is above k (or equal to it, when `orEqual`); null when there is none. */
  ghost predicate Successor(s: seq<(Node, int)>, k: int, orEqual: bool, r: Node?)
    reads r
  {
    if r == null then
      forall x <- s :: x.1 < k || (x.1 == k && !orEqual)
    else
      && (r, r.key) in s && (r.key > k || (r.key == k && orEqual))
      && forall x <- s :: x.1 > k || (x.1 == k && orEqual) ==> r.key <= x.1
  }

  method FindFirstLessThan(self: Node, k: int, ghost t: Shape, ghost p: Node?) returns (r: Node?)
    requires t.Fork? && t.node == self && Rep(t, p) && Sorted(Inorder(t))
    ensures Predecessor(Inorder(t), k, false, r)
    decreases t
  {
    hide Sorted;
    TreeParts(t);
    NilEntries();
    r := null;
    if self.key < k {
      if self.right != null {
        r := FindFirstLessThan(self.right, k, t.right, self);
      }
      if r == null {
        r := self;
      }
    } else if self.left != null {
      r := FindFirstLessThan(self.left, k, t.left, self);
    }
  }

  method FindFirstLessThanOrEqualTo(self: Node, k: int, ghost t: Shape, ghost p: Node?) returns (r: Node?)
    requires t.Fork? && t.node == self && Rep(t, p) && Sorted(Inorder(t))
    ensures Predecessor(Inorder(t), k, true, r)
    decreases t
  {
    hide Sorted;
    TreeParts(t);
    NilEntries();
    if self.key == k {
      return self;
    }
    r := null;
    if self.key < k {
      if self.right != null {
        r := FindFirstLessThanOrEqualTo(self.right, k, t.right, self);
      }
      if r == null {
        r := self;
      }
    } else if self.left != null {
      r := FindFirstLessThanOrEqualTo(self.left, k, t.left, self);
    }
  }

  method FindFirstGreaterThan(self: Node, k: int, ghost t: Shape, ghost p: Node?) returns (r: Node?)
    requires t.Fork? && t.node == self && Rep(t, p) && Sorted(Inorder(t))
    ensures Successor(Inorder(t), k, false, r)
    decreases t
  {
    hide Sorted;
    TreeParts(t);
    NilEntries();
    r := null;
    if self.key > k {
      if self.left != null {
        r := FindFirstGreaterThan(self.left, k, t.left, self);
      }
      if r == null {
        r := self;
      }
    } else if self.right != null {
      r := FindFirstGreaterThan(self.right, k, t.right, self);
    }
  }

  method FindFirstGreaterThanOrEqualTo(self: Node, k: int, ghost t: Shape, ghost p: Node?) returns (r: Node?)
    requires t.Fork? && t.node == self && Rep(t, p) && Sorted(Inorder(t))
    ensures Successor(Inorder(t), k, true, r)
    decreases t
  {
    hide Sorted;
    TreeParts(t);
    NilEntries();
    if self.key == k {
      return self;
    }
    r := null;
    if self.key > k {
      if self.left != null {
        r := FindFirstGreaterThanOrEqualTo(self.left, k, t.left, self);
      }
      if r == null {
        r := self;
      }
    } else if self.right != null {
      r := FindFirstGreaterThanOrEqualTo(self.right, k, t.right, self);
    }
  }

  lemma NilEntries()
    ensures Inorder(Tree<Node>.Nil) == []
  {
  }

  /** The heap below a node is the given tree, whatever its parent links are. */
  ghost predicate Laid(t: Shape)
    reads Nodes(t)
  {
    t.Fork? ==>
      && t.node.key == t.key && t.node.balance == t.bal && t.node.left == Root(t.left) && t.node.right == Root(t.right)
      && Laid(t.left) && Laid(t.right)
  }

  /** The top links to p, and every other node to the node above it. */
  ghost predicate Linked(t: Shape, p: Node?)
    reads Nodes(t)
  {
    t.Fork? ==> t.node.parent == p && Linked(t.left, t.node) && Linked(t.right, t.node)
  }

  lemma LaidElim(t: Shape)
    requires t.Fork? && Laid(t)
    ensures t.node.key == t.key && t.node.balance == t.bal && t.node.left == Root(t.left) && t.node.right == Root(t.right)
    ensures Laid(t.left) && Laid(t.right)
    ensures t.left.Fork? ==> t.left.node.key == t.left.key && (Linked(t.left, t.node) ==> t.left.node.parent == t.node)
    ensures t.right.Fork? ==> t.right.node.key == t.right.key && (Linked(t.right, t.node) ==> t.right.node.parent == t.node)
  {
  }

  lemma {:induction false} RepLinked(t: Shape, p: Node?)
    requires Rep(t, p)
    ensures Laid(t) && Linked(t, p) && (t.Fork? ==> t.node.parent == p && t.node.key == t.key)
  {
    if t.Fork? {
      RepLinked(t.left, t.node);
      RepLinked(t.right, t.node);
    }
  }

  /** What an accepted tree is made of. */
  lemma Accepted(t: Shape, p: Node?)
    requires t.Fork? && t.node.parent == p
    ensures Avl(t) && LocallyOrdered(t) && Linked(t, p) <==>
            && Avl(t.left) && LocallyOrdered(t.left) && Linked(t.left, t.node)
            && Avl(t.right) && LocallyOrdered(t.right) && Linked(t.right, t.node)
            && (t.left.Fork? ==> t.left.key < t.key) && (t.right.Fork? ==> t.key < t.right.key)
            && t.bal != New && t.bal == (if Height(t.left) == Height(t.right) then Balanced
                                         else if Height(t.left) == Height(t.right) + 1 then LeftHeavy
                                         else if Height(t.left) + 1 == Height(t.right) then RightHeavy else New)
    ensures Height(t) == 1 + if Height(t.left) > Height(t.right) then Height(t.left) else Height(t.right)
    ensures |Inorder(t)| == |Inorder(t.left)| + 1 + |Inorder(t.right)|
    ensures Avl<Node>(Nil) && LocallyOrdered<Node>(Nil) && Linked(Nil, t.node) && Height<Node>(Nil) == 0 && Inorder<Node>(Nil) == []
  {
  }

  /** checkAndReturnDepth: it accepts exactly the balanced trees whose links match and whose nodes are in order with their children. */
  method CheckDepth(self: Node, ghost t: Shape) returns (ok: bool, depth: nat, counted: nat)
    requires t.Fork? && t.node == self && Laid(t)
    ensures ok <==> Avl(t) && LocallyOrdered(t) && Linked(t, self.parent)
    ensures ok ==> depth == Height(t) && counted == |Inorder(t)|
    decreases t
  {
    hide Nodes, Laid, Linked, Avl, Inorder, LocallyOrdered, Height;
    assert allocated(Nodes(t.left)) && allocated(Nodes(t.right));
    LaidElim(t);
    Accepted(t, self.parent);
    ok, depth, counted := false, 0, 0;
    if self.balance == New || (self.left != null && self.left.parent != self) {
      return;
    }
    if self.right != null && (self.right.parent != self || !(self.key < self.right.key)) {
      return;
    }
    if self.left != null && !(self.key > self.left.key) {
      return;
    }
    var leftOk, leftDepth, leftCount := true, 0, 0;
    if self.left != null {
      leftOk, leftDepth, leftCount := CheckDepth(self.left, t.left);
    }
    var rightOk, rightDepth, rightCount := true, 0, 0;
    if self.right != null {
      rightOk, rightDepth, rightCount := CheckDepth(self.right, t.right);
    }
    Accepted(t, self.parent);
    assert leftOk <==> Avl(t.left) && LocallyOrdered(t.left) && Linked(t.left, self);
    if !leftOk || !rightOk {
      return;
    }
    counted := leftCount + 1 + rightCount;
    if leftDepth == rightDepth {
      return self.balance == Balanced, leftDepth + 1, counted;
    }
    if leftDepth == rightDepth + 1 {
      return self.balance == LeftHeavy, leftDepth + 1, counted;
    }
    if leftDepth + 1 == rightDepth {
      return self.balance == RightHeavy, rightDepth + 1, counted;
    }
  }

  class AvlTree {
    var tree: Node?
    var insertions: nat
    var deletions: nat
    var singleRotations: nat
    var doubleRotations: nat
    ghost var shape: Shape

    /** The heap holds the subtree t in the hole of path, and `tree` is its top. */
    ghost predicate At(t: Shape, path: Trail)
      reads this`tree, Nodes(t), TrailNodes(path)
    {
      && tree == Summit(path, Root(t))
      && Nodes(t) !! TrailNodes(path)
      && Rep(t, TrailParent(path))
      && RepTrail(path, Root(t))
    }

    /** One step up. */
    lemma ZipUp(t: Shape, path: Trail)
      requires path.Up? && At(t, path)
      ensures At(Make(path.node, path.key, path.bal, path.side, t, path.other), path.up)
      ensures Nodes(Make(path.node, path.key, path.bal, path.side, t, path.other)) + TrailNodes(path.up)
           == Nodes(t) + TrailNodes(path)
    {
    }

    lemma {:induction false} ZipAll(t: Shape, path: Trail)
      requires At(t, path)
      ensures At(Plug(t, path), Top) && Nodes(Plug(t, path)) == Nodes(t) + TrailNodes(path)
      decreases path
    {
      if path.Up? {
        ZipUp(t, path);
        ZipAll(Make(path.node, path.key, path.bal, path.side, t, path.other), path.up);
      }
    }

    /** One step down. */
    lemma ZipDown(t: Shape, path: Trail, side: Side)
      requires t.Fork? && At(t, path)
      ensures At(Kid(t, side), Up(side, t.node, t.key, t.bal, Kid(t, Opposite(side)), path))
      ensures Nodes(Kid(t, side)) + TrailNodes(Up(side, t.node, t.key, t.bal, Kid(t, Opposite(side)), path))
           == Nodes(t) + TrailNodes(path)
    {
    }

    ghost function Above(path: Trail): set<Node> {
      if path.Up? then {path.node} else {}
    }

    lemma AboveInside(path: Trail)
      ensures Above(path) <= TrailNodes(path)
    {
    }

    method SetBalance(self: Node, b: Balance, ghost t: Shape, ghost path: Trail)
      requires t.Fork? && t.node == self && At(t, path)
      modifies self`balance
      ensures At(t.(bal := b), path)
    {
      self.balance := b;
    }

    /** c takes the place of self below the parent of self, or as the root. */
    method Promote(self: Node, c: Node?, ghost path: Trail)
      requires self.parent == TrailParent(path) && self !in TrailNodes(path)
      requires RepTrail(path, self) && tree == Summit(path, self)
      modifies this`tree, Above(path)
      ensures RepTrail(path, c) && tree == Summit(path, c)
    {
      if self.parent != null {
        if self.parent.left == self {
          self.parent.left := c;
        } else {
          self.parent.right := c;
        }
      } else {
        tree := c;
      }
    }

    /** The subtree with root c is hung below n on one side. */
    static method Attach(n: Node, side: Side, c: Node?, ghost q: Node?, ghost sub: Shape)
      requires c == Root(sub) && Rep(sub, q) && n !in Nodes(sub)
      modifies n, if sub.Fork? then {sub.node} else {}
      ensures Rep(sub, n)
      ensures n.Child(side) == c && n.Child(Opposite(side)) == old(n.Child(Opposite(side)))
      ensures n.key == old(n.key) && n.parent == old(n.parent) && n.balance == old(n.balance)
    {
      assert allocated(Nodes(sub));
      n.SetChild(side, c);
      assert Rep(sub, q);
      Reparent(c, n, q, sub);
    }

    /** c, the root of a subtree, gets a new parent link. */
    static method Reparent(c: Node?, p: Node?, ghost q: Node?, ghost t: Shape)
      requires c == Root(t) && Rep(t, q)
      modifies if t.Fork? then {t.node} else {}
      ensures Rep(t, p)
    {
      if c != null {
        c.parent := p;
      }
    }

    /** Two nodes and three subtrees that share nothing. */
    static ghost predicate Apart(n: Node, m: Node, a: set<Node>, b: set<Node>, c: set<Node>) {
      && n != m && n !in a && n !in b && n !in c && m !in a && m !in b && m !in c
      && a !! b && a !! c && b !! c
    }

    /** The inner subtree moves from child to self, and self below child. */
    static method SwapBelow(self: Node, child: Node, side: Side, ghost outer: Shape, ghost inner: Shape, ghost light: Shape)
      requires Apart(self, child, Nodes(outer), Nodes(inner), Nodes(light))
      requires self.Child(Opposite(side)) == Root(light)
      requires child.Child(side) == Root(outer) && child.Child(Opposite(side)) == Root(inner)
      requires Rep(outer, child) && Rep(inner, child) && Rep(light, self)
      modifies self, child, if inner.Fork? then {inner.node} else {}
      ensures Rep(outer, child) && Rep(inner, self) && Rep(light, self)
      ensures self.Child(side) == Root(inner) && self.Child(Opposite(side)) == Root(light)
      ensures child.Child(side) == Root(outer) && child.Child(Opposite(side)) == self
      ensures self.parent == child && child.parent == old(child.parent)
      ensures self.key == old(self.key) && child.key == old(child.key)
    {
      hide Rep, Nodes;
      RootInside(inner);
      assert allocated(Nodes(outer)) && allocated(Nodes(inner)) && allocated(Nodes(light));
      Attach(self, side, child.Child(Opposite(side)), child, inner);
      assert Rep(outer, child) && Rep(light, self);
      child.SetChild(Opposite(side), self);
      self.parent := child;
    }

    /** The link changes of the single rotation. */
    method RotateLinks(self: Node, child: Node, side: Side, ghost outer: Shape, ghost inner: Shape, ghost light: Shape, ghost path: Trail)
      requires Apart(self, child, Nodes(outer), Nodes(inner), Nodes(light))
      requires TrailNodes(path) !! {self, child} + Nodes(outer) + Nodes(inner) + Nodes(light)
      requires self.parent == TrailParent(path) && RepTrail(path, self) && tree == Summit(path, self)
      requires self.Child(Opposite(side)) == Root(light)
      requires child.Child(side) == Root(outer) && child.Child(Opposite(side)) == Root(inner)
      requires Rep(outer, child) && Rep(inner, child) && Rep(light, self)
      modifies this`tree, self, child, Above(path), if inner.Fork? then {inner.node} else {}
      ensures Rep(outer, child) && Rep(inner, self) && Rep(light, self)
      ensures self.Child(side) == Root(inner) && self.Child(Opposite(side)) == Root(light)
      ensures child.Child(side) == Root(outer) && child.Child(Opposite(side)) == self
      ensures self.parent == child && child.parent == TrailParent(path)
      ensures self.key == old(self.key) && child.key == old(child.key)
      ensures RepTrail(path, child) && tree == Summit(path, child)
    {
      hide Rep, Nodes, RepTrail, TrailNodes, Summit;
      RootInside(inner);
      AboveInside(path);
      assert allocated(Nodes(outer)) && allocated(Nodes(inner)) && allocated(Nodes(light)) && allocated(TrailNodes(path));
      Promote(self, child, path);
      assert Rep(outer, child) && Rep(inner, child) && Rep(light, self);
      child.parent := self.parent;
      assert RepTrail(path, child);
      SwapBelow(self, child, side, outer, inner, light);
    }

    /** A node and its child, taken apart. */
    static lemma Pieces(t: Shape, side: Side, p: Node?)
      requires t.Fork? && Kid(t, side).Fork? && Rep(t, p)
      ensures var c, light := Kid(t, side), Kid(t, Opposite(side));
              var outer, inner, self, child := Kid(c, side), Kid(c, Opposite(side)), t.node, c.node;
              && Apart(self, child, Nodes(outer), Nodes(inner), Nodes(light))
              && Nodes(t) == {self, child} + Nodes(outer) + Nodes(inner) + Nodes(light)
              && self.parent == p && self.Child(side) == child && self.Child(Opposite(side)) == Root(light)
              && child.Child(side) == Root(outer) && child.Child(Opposite(side)) == Root(inner)
              && Rep(outer, child) && Rep(inner, child) && Rep(light, self)
              && self.key == t.key && child.key == c.key && child.balance == c.bal
    {
      hide Rep, Nodes;
      RepElim(t, side, p);
      RepElim(Kid(t, side), side, t.node);
    }

    /** A node with another below it on the opposite side, put together. */
    static lemma Assemble(self: Node, child: Node, side: Side, outer: Shape, inner: Shape, light: Shape)
      requires Apart(self, child, Nodes(outer), Nodes(inner), Nodes(light))
      requires self.Child(side) == Root(inner) && self.Child(Opposite(side)) == Root(light)
      requires child.Child(side) == Root(outer) && child.Child(Opposite(side)) == self && self.parent == child
      requires Rep(outer, child) && Rep(inner, self) && Rep(light, self)
      ensures var t := Make(child, child.key, child.balance, side, outer, Make(self, self.key, self.balance, side, inner, light));
              && Rep(t, child.parent)
              && Nodes(t) == {self, child} + Nodes(outer) + Nodes(inner) + Nodes(light)
    {
      hide Rep, Nodes;
      RepIntro(self, side, inner, light);
      RepIntro(child, side, outer, Make(self, self.key, self.balance, side, inner, light));
    }

    method SingleRotate(self: Node, child: Node, side: Side, ghost t: Shape, ghost path: Trail)
      requires t.Fork? && t.node == self && Kid(t, side).Fork? && Kid(t, side).node == child && At(t, path)
      modifies this`tree, this`singleRotations, Nodes(t), Above(path)
      ensures At(AvlShape.SingleRotate(t, side), path)
      ensures Nodes(AvlShape.SingleRotate(t, side)) == Nodes(t) && singleRotations == old(singleRotations) + 1
    {
      hide Rep, Nodes, RepTrail, TrailNodes, Summit;
      ghost var c := Kid(t, side);
      ghost var outer, inner, light := Kid(c, side), Kid(c, Opposite(side)), Kid(t, Opposite(side));
      Pieces(t, side, TrailParent(path));
      RootInside(inner);
      AboveInside(path);
      singleRotations := singleRotations + 1;
      RotateLinks(self, child, side, outer, inner, light, path);
      self.balance := Balanced;
      child.balance := Balanced;
      Assemble(self, child, side, outer, inner, light);
    }

    /** Three nodes and four subtrees that share nothing. */
    static ghost predicate Apart3(n: Node, m: Node, o: Node, a: set<Node>, b: set<Node>, c: set<Node>, d: set<Node>) {
      && n != m && n != o && m != o
      && n !in a && n !in b && n !in c && n !in d
      && m !in a && m !in b && m !in c && m !in d
      && o !in a && o !in b && o !in c && o !in d
      && a !! b && a !! c && a !! d && b !! c && b !! d && c !! d
    }

    /** The grandchild rises above both others. */
    method LiftCentre(self: Node, child: Node, grand: Node, side: Side, ghost path: Trail)
      requires self != child && self != grand && child != grand && TrailNodes(path) !! {self, child, grand}
      requires self.parent == TrailParent(path) && RepTrail(path, self) && tree == Summit(path, self)
      modifies this`tree, Above(path), grand, self`parent, child`parent
      ensures grand.Child(side) == child && grand.Child(Opposite(side)) == self && grand.parent == TrailParent(path)
      ensures grand.key == old(grand.key) && grand.balance == old(grand.balance)
      ensures self.parent == grand && child.parent == grand
      ensures RepTrail(path, grand) && tree == Summit(path, grand)
    {
      hide RepTrail, TrailNodes, Summit;
      AboveInside(path);
      assert allocated(TrailNodes(path));
      Promote(self, grand, path);
      grand.parent := self.parent;
      grand.SetChild(side, child);
      grand.SetChild(Opposite(side), self);
      self.parent := grand;
      child.parent := grand;
    }

    /** The two subtrees of the grandchild go to self and child. */
    static method HangInner(self: Node, child: Node, grand: Node, side: Side, beta: Node?, gamma: Node?,
                            ghost outer: Shape, ghost g: Shape, ghost b: Shape, ghost light: Shape)
      requires Apart3(self, child, grand, Nodes(outer), Nodes(g), Nodes(b), Nodes(light))
      requires beta == Root(b) && gamma == Root(g)
      requires Rep(outer, child) && Rep(g, grand) && Rep(b, grand) && Rep(light, self)
      modifies self, child, (if b.Fork? then {b.node} else {}) + (if g.Fork? then {g.node} else {})
      ensures Rep(outer, child) && Rep(g, child) && Rep(b, self) && Rep(light, self)
      ensures self.Child(side) == beta && self.Child(Opposite(side)) == old(self.Child(Opposite(side)))
      ensures child.Child(Opposite(side)) == gamma && child.Child(side) == old(child.Child(side))
      ensures self.key == old(self.key) && self.parent == old(self.parent)
      ensures child.key == old(child.key) && child.parent == old(child.parent)
    {
      hide Rep, Nodes;
      RootInside(b);
      RootInside(g);
      assert allocated(Nodes(outer)) && allocated(Nodes(g)) && allocated(Nodes(b)) && allocated(Nodes(light));
      Attach(self, side, beta, grand, b);
      assert Rep(outer, child) && Rep(g, grand) && Rep(light, self);
      Attach(child, Opposite(side), gamma, grand, g);
    }

    static lemma Pieces3(t: Shape, side: Side, p: Node?)
      requires t.Fork? && Kid(t, side).Fork? && Kid(Kid(t, side), Opposite(side)).Fork? && Rep(t, p)
      ensures var c, light := Kid(t, side), Kid(t, Opposite(side));
              var outer, d := Kid(c, side), Kid(c, Opposite(side));
              var g, b, self, child, grand := Kid(d, side), Kid(d, Opposite(side)), t.node, c.node, d.node;
              && Apart3(self, child, grand, Nodes(outer), Nodes(g), Nodes(b), Nodes(light))
              && Nodes(t) == {self, child, grand} + Nodes(outer) + Nodes(g) + Nodes(b) + Nodes(light)
              && self.parent == p && self.Child(side) == child && self.Child(Opposite(side)) == Root(light)
              && child.Child(side) == Root(outer) && child.Child(Opposite(side)) == grand
              && grand.Child(side) == Root(g) && grand.Child(Opposite(side)) == Root(b)
              && Rep(outer, child) && Rep(g, grand) && Rep(b, grand) && Rep(light, self)
              && self.key == t.key && child.key == c.key && grand.key == d.key && grand.balance == d.bal
    {
      hide Rep, Nodes;
      Pieces(t, side, p);
      RepElim(Kid(Kid(t, side), Opposite(side)), side, Kid(t, side).node);
    }

    static lemma Assemble3(self: Node, child: Node, grand: Node, side: Side, outer: Shape, g: Shape, b: Shape, light: Shape)
      requires Apart3(self, child, grand, Nodes(outer), Nodes(g), Nodes(b), Nodes(light))
      requires self.Child(side) == Root(b) && self.Child(Opposite(side)) == Root(light) && self.parent == grand
      requires child.Child(side) == Root(outer) && child.Child(Opposite(side)) == Root(g) && child.parent == grand
      requires grand.Child(side) == child && grand.Child(Opposite(side)) == self
      requires Rep(outer, child) && Rep(g, child) && Rep(b, self) && Rep(light, self)
      ensures var t := Make(grand, grand.key, grand.balance, side,
                            Make(child, child.key, child.balance, side, outer, g),
                            Make(self, self.key, self.balance, side, b, light));
              && Rep(t, grand.parent)
              && Nodes(t) == {self, child, grand} + Nodes(outer) + Nodes(g) + Nodes(b) + Nodes(light)
    {
      hide Rep, Nodes;
      RepIntro(child, side, outer, g);
      RepIntro(self, side, b, light);
      RepIntro(grand, side, Make(child, child.key, child.balance, side, outer, g), Make(self, self.key, self.balance, side, b, light));
    }

    /** The link changes of the double rotation. */
    method DoubleLinks(self: Node, child: Node, grand: Node, side: Side,
                       ghost outer: Shape, ghost g: Shape, ghost b: Shape, ghost light: Shape, ghost path: Trail)
      requires Apart3(self, child, grand, Nodes(outer), Nodes(g), Nodes(b), Nodes(light))
      requires TrailNodes(path) !! {self, child, grand} + Nodes(outer) + Nodes(g) + Nodes(b) + Nodes(light)
      requires self.parent == TrailParent(path) && RepTrail(path, self) && tree == Summit(path, self)
      requires self.Child(Opposite(side)) == Root(light) && child.Child(side) == Root(outer)
      requires grand.Child(side) == Root(g) && grand.Child(Opposite(side)) == Root(b)
      requires Rep(outer, child) && Rep(g, grand) && Rep(b, grand) && Rep(light, self)
      modifies this`tree, Above(path), self, child, grand
      modifies (if b.Fork? then {b.node} else {}) + (if g.Fork? then {g.node} else {})
      ensures self.Child(side) == Root(b) && self.Child(Opposite(side)) == Root(light) && self.parent == grand
      ensures child.Child(side) == Root(outer) && child.Child(Opposite(side)) == Root(g) && child.parent == grand
      ensures grand.Child(side) == child && grand.Child(Opposite(side)) == self && grand.parent == TrailParent(path)
      ensures self.key == old(self.key) && child.key == old(child.key)
      ensures grand.key == old(grand.key) && grand.balance == old(grand.balance)
      ensures Rep(outer, child) && Rep(g, child) && Rep(b, self) && Rep(light, self)
      ensures RepTrail(path, grand) && tree == Summit(path, grand)
    {
      hide Rep, Nodes, RepTrail, TrailNodes, Summit;
      RootInside(b);
      RootInside(g);
      AboveInside(path);
      assert allocated(Nodes(outer)) && allocated(Nodes(g)) && allocated(Nodes(b)) && allocated(Nodes(light)) && allocated(TrailNodes(path));
      var beta, gamma := grand.Child(Opposite(side)), grand.Child(side);
      LiftCentre(self, child, grand, side, path);
      assert Rep(outer, child) && Rep(g, grand) && Rep(b, grand) && Rep(light, self);
      HangInner(self, child, grand, side, beta, gamma, outer, g, b, light);
    }

    /** The tags after a double rotation depend on which way the grandchild leaned. */
    static method FinishDouble(self: Node, child: Node, grand: Node, side: Side,
                               ghost outer: Shape, ghost g: Shape, ghost b: Shape, ghost light: Shape)
      requires Apart3(self, child, grand, Nodes(outer), Nodes(g), Nodes(b), Nodes(light))
      requires self.Child(side) == Root(b) && self.Child(Opposite(side)) == Root(light) && self.parent == grand
      requires child.Child(side) == Root(outer) && child.Child(Opposite(side)) == Root(g) && child.parent == grand
      requires grand.Child(side) == child && grand.Child(Opposite(side)) == self
      requires Rep(outer, child) && Rep(g, child) && Rep(b, self) && Rep(light, self)
      modifies self`balance, child`balance, grand`balance
      ensures var sb := if old(grand.balance) == Heavy(side) then Heavy(Opposite(side)) else Balanced;
              var cb := if old(grand.balance) == Heavy(Opposite(side)) then Heavy(side) else Balanced;
              var t := Make(grand, grand.key, Balanced, side,
                            Make(child, child.key, cb, side, outer, g), Make(self, self.key, sb, side, b, light));
              && Rep(t, grand.parent)
              && Nodes(t) == {self, child, grand} + Nodes(outer) + Nodes(g) + Nodes(b) + Nodes(light)
    {
      hide Rep, Nodes;
      self.balance := if grand.balance == Heavy(side) then Heavy(Opposite(side)) else Balanced;
      child.balance := if grand.balance == Heavy(Opposite(side)) then Heavy(side) else Balanced;
      grand.balance := Balanced;
      Assemble3(self, child, grand, side, outer, g, b, light);
    }

    method DoubleRotate(self: Node, child: Node, grand: Node, side: Side, ghost t: Shape, ghost path: Trail)
      requires t.Fork? && Kid(t, side).Fork? && Kid(Kid(t, side), Opposite(side)).Fork? && At(t, path)
      requires t.node == self && Kid(t, side).node == child && Kid(Kid(t, side), Opposite(side)).node == grand
      modifies this`tree, this`doubleRotations, Nodes(t), Above(path)
      ensures At(AvlShape.DoubleRotate(t, side), path)
      ensures Nodes(AvlShape.DoubleRotate(t, side)) == Nodes(t) && doubleRotations == old(doubleRotations) + 1
    {
      hide Rep, Nodes, RepTrail, TrailNodes, Summit;
      ghost var c, light := Kid(t, side), Kid(t, Opposite(side));
      ghost var outer, d := Kid(c, side), Kid(c, Opposite(side));
      ghost var g, b := Kid(d, side), Kid(d, Opposite(side));
      Pieces3(t, side, TrailParent(path));
      RootInside(b);
      RootInside(g);
      AboveInside(path);
      doubleRotations := doubleRotations + 1;
      DoubleLinks(self, child, grand, side, outer, g, b, light, path);
      assert allocated(TrailNodes(path));
      FinishDouble(self, child, grand, side, outer, g, b, light);
    }

    // ----- the walks up the tree

    /** Which child of its parent a node is can be read off the links. */
    lemma HoleSide(t: Shape, path: Trail)
      requires t.Fork? && path.Up? && At(t, path)
      ensures t.node.parent == path.node
      ensures path.node.right == t.node <==> path.side == RightSide
      ensures path.node.left == t.node <==> path.side == LeftSide
    {
    }

    /** What the code can read of a represented node. */
    static lemma Fields(t: Shape, side: Side, p: Node?)
      requires t.Fork? && Rep(t, p)
      ensures t.node.balance == t.bal && t.node.parent == p
      ensures t.node.Child(side) == Root(Kid(t, side)) && t.node.Child(Opposite(side)) == Root(Kid(t, Opposite(side)))
      ensures Rep(Kid(t, side), t.node)
    {
    }

    lemma NodesTagged(t: Shape, b: Balance)
      requires t.Fork?
      ensures Nodes(t.(bal := b)) == Nodes(t)
    {
    }

    lemma AtElim(t: Shape, path: Trail)
      requires At(t, path)
      ensures Rep(t, TrailParent(path))
    {
    }

    /** What rightAdded and leftAdded do at one node; `more` says that the subtree has become deeper. */
    method Regrow(self: Node, side: Side, ghost t: Shape, ghost path: Trail) returns (more: bool)
      requires AddedPre(t, side, path) && t.node == self && At(t, path)
      modifies this`tree, this`singleRotations, this`doubleRotations, Nodes(t), Above(path)
      ensures At(Regrown(t, side, path).0, path) && more == Regrown(t, side, path).1
      ensures Nodes(Regrown(t, side, path).0) == Nodes(t)
    {
      hide Rep, Nodes, RepTrail, TrailNodes, Summit, AddedPre, AvlShape.SingleRotate, AvlShape.DoubleRotate, At, Make;
      AtElim(t, path);
      AddedKid(t, side, path);
      Fields(t, side, TrailParent(path));
      RootInside(t);
      if self.balance == Heavy(Opposite(side)) {
        SetBalance(self, Balanced, t, path);
        NodesTagged(t, Balanced);
        return false;
      }
      if self.balance == Balanced {
        SetBalance(self, Heavy(side), t, path);
        NodesTagged(t, Heavy(side));
        return true;
      }
      AddedTag(t, side, path);
      Fields(Kid(t, side), Opposite(side), self);
      if self.Child(side).balance == Heavy(side) {
        SingleRotate(self, self.Child(side), side, t, path);
      } else {
        AddedShape(t, side, path);
        DoubleRotate(self, self.Child(side), self.Child(side).Child(Opposite(side)), side, t, path);
      }
      return false;
    }

    /** rightAdded and leftAdded. */
    method AddedOn(self: Node, side: Side, ghost t: Shape, ghost path: Trail)
      requires AddedPre(t, side, path) && t.node == self && At(t, path)
      modifies this`tree, this`singleRotations, this`doubleRotations, Nodes(t), TrailNodes(path)
      ensures At(Added(t, side, path), Top)
      ensures Nodes(Added(t, side, path)) == Nodes(t) + TrailNodes(path)
      decreases path
    {
      hide Rep, Nodes, RepTrail, TrailNodes, Summit, AddedPre, Regrown, Plug, At, Make, Grown, AvlPath, Avl, Height;
      RegrownCorrect(t, side, path);
      ghost var r := Regrown(t, side, path).0;
      AboveInside(path);
      TopEmpty(path);
      var more := Regrow(self, side, t, path);
      ZipAll(r, path);
      if more {
        TaggedRoot(t, side, path);
        AtElim(r, path);
        Fields(r, side, TrailParent(path));
        if self.parent != null {
          HoleSide(r, path);
          ZipUp(r, path);
          AddedUp(r, path);
          MakeNode(path, r);
          if self.parent.right == self {
            AddedOn(self.parent, RightSide, Make(path.node, path.key, path.bal, path.side, r, path.other), path.up);
          } else {
            AddedOn(self.parent, LeftSide, Make(path.node, path.key, path.bal, path.side, r, path.other), path.up);
          }
        }
      }
    }

    lemma TaggedRoot(t: Shape, side: Side, path: Trail)
      requires AddedPre(t, side, path) && Regrown(t, side, path).1
      ensures Regrown(t, side, path).0.Fork? && Regrown(t, side, path).0.node == t.node
    {
    }

    lemma TopEmpty(path: Trail)
      ensures TrailParent(path) == null <==> path.Top?
      ensures path.Top? ==> TrailNodes(path) == {}
    {
    }

    lemma MakeNode(path: Trail, r: Shape)
      requires path.Up?
      ensures Make(path.node, path.key, path.bal, path.side, r, path.other).node == path.node
    {
    }

    lemma AddedKid(t: Shape, side: Side, path: Trail)
      requires AddedPre(t, side, path)
      ensures t.Fork? && Kid(t, side).Fork?
    {
    }

    lemma AddedTag(t: Shape, side: Side, path: Trail)
      requires AddedPre(t, side, path) && t.bal != Balanced && t.bal != Heavy(Opposite(side))
      ensures t.bal == Heavy(side)
    {
    }

    // ----- gotOneShorter

    /** The tags that the single rotation got wrong are set again. */
    method Retag(self: Node, child: Node, heavy: Side, ghost t: Shape, ghost path: Trail)
      requires t.Fork? && Kid(t, heavy).Fork? && t.node == self && Kid(t, heavy).node == child
      requires At(AvlShape.SingleRotate(t, heavy), path)
      modifies self`balance, child`balance
      ensures At(SingleRotateRetagged(t, heavy), path)
      ensures Nodes(SingleRotateRetagged(t, heavy)) == Nodes(AvlShape.SingleRotate(t, heavy))
    {
      hide Rep, Nodes, RepTrail, TrailNodes, Summit, At;
      var opp := Opposite(heavy);
      ghost var r := AvlShape.SingleRotate(t, heavy);
      ghost var low, outer := Kid(r, opp), Kid(r, heavy);
      ZipDown(r, path, opp);
      SetBalance(self, Heavy(heavy), low, Up(opp, child, r.key, Balanced, outer, path));
      ghost var low' := low.(bal := Heavy(heavy));
      ZipUp(low', Up(opp, child, r.key, Balanced, outer, path));
      ghost var r' := Make(child, r.key, Balanced, opp, low', outer);
      SetBalance(child, Heavy(opp), r', path);
      NodesTagged(low, Heavy(heavy));
      NodesTagged(r', Heavy(opp));
      NodesSide(r, opp);
      NodesSide(r', opp);
      RetaggedIs(t, heavy);
    }

    lemma RetaggedIs(t: Shape, heavy: Side)
      requires t.Fork? && Kid(t, heavy).Fork?
      ensures var r, opp := AvlShape.SingleRotate(t, heavy), Opposite(heavy);
              var low := Kid(r, opp).(bal := Heavy(heavy));
              SingleRotateRetagged(t, heavy) == Make(r.node, r.key, Balanced, opp, low, Kid(r, heavy)).(bal := Heavy(opp))
    {
    }

    /** What gotOneShorter does at one node; `top` is the root of the subtree afterwards. */
    method Shrink(self: Node, side: Side, ghost t: Shape, ghost path: Trail) returns (less: bool, top: Node)
      requires ShorterPre(t, side, path) && t.node == self && At(t, path)
      modifies this`tree, this`singleRotations, this`doubleRotations, Nodes(t), Above(path)
      ensures At(Shrunk(t, side, path).0, path) && less == Shrunk(t, side, path).1
      ensures Root(Shrunk(t, side, path).0) == top
      ensures Nodes(Shrunk(t, side, path).0) == Nodes(t)
    {
      hide Rep, Nodes, RepTrail, TrailNodes, Summit, ShorterPre, At;
      AtElim(t, path);
      ShorterFork(t, side, path);
      Fields(t, side, TrailParent(path));
      RootInside(t);
      if self.balance == Balanced {
        SetBalance(self, Heavy(Opposite(side)), t, path);
        NodesTagged(t, Heavy(Opposite(side)));
        return false, self;
      }
      if self.balance == Heavy(side) {
        SetBalance(self, Balanced, t, path);
        NodesTagged(t, Balanced);
        return true, self;
      }
      ShorterTag(t, side, path);
      ShorterShape(t, side, path);
      var heavy := Opposite(side);
      Fields(t, heavy, TrailParent(path));
      Fields(Kid(t, heavy), side, self);
      var heavyChild := self.Child(heavy);
      RootInside(Kid(t, heavy));
      NodesSide(t, heavy);
      if heavyChild.balance == Heavy(heavy) {
        SingleRotate(self, heavyChild, heavy, t, path);
        return true, heavyChild;
      }
      if heavyChild.balance == Heavy(side) {
        var grand := heavyChild.Child(side);
        DoubleRotate(self, heavyChild, grand, heavy, t, path);
        return true, grand;
      }
      SingleRotate(self, heavyChild, heavy, t, path);
      Retag(self, heavyChild, heavy, t, path);
      return false, heavyChild;
    }

    lemma ShorterFork(t: Shape, side: Side, path: Trail)
      requires ShorterPre(t, side, path)
      ensures t.Fork?
    {
    }

    lemma ShorterTag(t: Shape, side: Side, path: Trail)
      requires ShorterPre(t, side, path) && t.bal != Balanced && t.bal != Heavy(side)
      ensures t.bal == Heavy(Opposite(side))
    {
    }

    /** gotOneShorter: the subtree of self on `side` has become one less deep. */
    method GotOneShorter(self: Node, side: Side, ghost t: Shape, ghost path: Trail)
      requires ShorterPre(t, side, path) && t.node == self && At(t, path)
      modifies this`tree, this`singleRotations, this`doubleRotations, Nodes(t), TrailNodes(path)
      ensures At(Shorter(t, side, path), Top)
      ensures Nodes(Shorter(t, side, path)) == Nodes(t) + TrailNodes(path)
      decreases path
    {
      hide Rep, Nodes, RepTrail, TrailNodes, Summit, ShorterPre, Shrunk, Plug, At, Make, AvlPath, Avl, Height;
      ShrunkCorrect(t, side, path);
      ghost var r := Shrunk(t, side, path).0;
      AboveInside(path);
      TopEmpty(path);
      var less, top := Shrink(self, side, t, path);
      ZipAll(r, path);
      if less {
        AtElim(r, path);
        Fields(r, side, TrailParent(path));
        if top.parent != null {
          HoleSide(r, path);
          ZipUp(r, path);
          ShorterUp(r, path);
          MakeNode(path, r);
          if top.parent.right == top {
            GotOneShorter(top.parent, RightSide, Make(path.node, path.key, path.bal, path.side, r, path.other), path.up);
          } else {
            GotOneShorter(top.parent, LeftSide, Make(path.node, path.key, path.bal, path.side, r, path.other), path.up);
          }
        }
      }
    }

    // ----- removal

    /** A subtree of self, rooted at c, takes the place of self. */
    method ReplaceBy(self: Node, c: Node?, ghost t: Shape, ghost side: Side, ghost path: Trail)
      requires t.Fork? && t.node == self && At(t, path) && c == Root(Kid(t, side))
      modifies this`tree, Above(path), if Kid(t, side).Fork? then {Kid(t, side).node} else {}
      ensures At(Kid(t, side), path)
    {
      hide Rep, Nodes, RepTrail, TrailNodes, Summit;
      ghost var sub := Kid(t, side);
      RepElim(t, side, TrailParent(path));
      RootInside(t);
      RootInside(sub);
      AboveInside(path);
      assert allocated(Nodes(sub)) && allocated(TrailNodes(path));
      Reparent(c, self.parent, self, sub);
      assert RepTrail(path, self);
      Promote(self, c, path);
    }

    /** The walk that starts where a subtree has become one less deep. */
    method LiftFrom(p: Node, side: Side, ghost sub: Shape, ghost path: Trail)
      requires path.Up? && p == path.node && side == path.side
      requires At(sub, path) && Avl(sub) && AvlPath(path, Height(sub) + 1)
      modifies this`tree, this`singleRotations, this`doubleRotations, Nodes(sub), TrailNodes(path)
      ensures At(Lift(sub, path), Top) && Nodes(Lift(sub, path)) == Nodes(sub) + TrailNodes(path)
    {
      hide Rep, Nodes, RepTrail, TrailNodes, Summit, At, Shorter, ShorterPre, AvlPath;
      ZipUp(sub, path);
      ShorterUp(sub, path);
      MakeNode(path, sub);
      GotOneShorter(p, side, Make(path.node, path.key, path.bal, path.side, sub, path.other), path.up);
    }

    /** Removal of a node that lacks a child: its other subtree moves up. */
    method RemoveSingle(self: Node, c: Node?, ghost t: Shape, ghost side: Side, ghost path: Trail)
      requires t.Fork? && t.node == self && At(t, path) && c == Root(Kid(t, side))
      requires Avl(Kid(t, side)) && AvlPath(path, Height(Kid(t, side)) + 1)
      modifies this`tree, this`singleRotations, this`doubleRotations, Nodes(t), TrailNodes(path)
      ensures At(Lift(Kid(t, side), path), Top)
      ensures Nodes(Lift(Kid(t, side), path)) == Nodes(Kid(t, side)) + TrailNodes(path)
      ensures self.key == old(self.key)
    {
      hide Rep, Nodes, RepTrail, TrailNodes, Summit, At, Shorter, ShorterPre, AvlPath, Avl, Height;
      ghost var sub := Kid(t, side);
      AtElim(t, path);
      Fields(t, side, TrailParent(path));
      NodesSide(t, side);
      RootInside(sub);
      AboveInside(path);
      TopEmpty(path);
      SelfOutside(t, side, path);
      var p := self.parent;
      var onLeft := p != null && p.left == self;
      if p != null {
        HoleSide(t, path);
      }
      ReplaceBy(self, c, t, side, path);
      if p != null {
        LiftFrom(p, if onLeft then LeftSide else RightSide, sub, path);
      }
    }

    lemma SelfOutside(t: Shape, side: Side, path: Trail)
      requires t.Fork? && At(t, path)
      ensures t.node !in Nodes(Kid(t, side)) && t.node !in TrailNodes(path)
    {
    }

    /** The tree without its leftmost node, its tags not yet adjusted. */
    static ghost function Unhook(t: Shape): Shape
      requires t.Fork?
    {
      if t.left.Nil? then t.right else Fork(t.node, t.key, t.bal, Unhook(t.left), t.right)
    }

    /** The hole of a leftmost path, filled with the right subtree of the leftmost node, is the unhooked tree. */
    lemma {:induction false} ZipLeft(t: Shape, base: Trail)
      requires t.Fork?
      ensures At(Leftmost(t).right, LeftmostPath(t, base)) <==> At(Unhook(t), base)
      ensures Nodes(Leftmost(t).right) + TrailNodes(LeftmostPath(t, base)) == Nodes(Unhook(t)) + TrailNodes(base)
      decreases t
    {
      if t.left.Fork? {
        var up := Up(LeftSide, t.node, t.key, t.bal, t.right, base);
        ZipLeft(t.left, up);
        var u := Unhook(t.left);
        assert Make(t.node, t.key, t.bal, LeftSide, u, t.right) == Unhook(t);
        if At(u, up) {
          ZipUp(u, up);
        }
        if At(Unhook(t), base) {
          ZipDown(Unhook(t), base, LeftSide);
        }
      }
    }

    static lemma {:induction false} UnhookNodes(t: Shape, p: Node?, base: Trail)
      requires t.Fork? && Rep(t, p)
      ensures Nodes(Unhook(t)) == Nodes(t) - {Leftmost(t).node}
      ensures Leftmost(t).node in Nodes(t) && Nodes(Leftmost(t).right) <= Nodes(t)
      ensures Leftmost(t).node !in Nodes(Leftmost(t).right)
      ensures t.left.Fork? ==> LeftmostPath(t, base).Up? && LeftmostPath(t, base).node in Nodes(t) - {Leftmost(t).node}
      decreases t
    {
      if t.left.Fork? {
        UnhookNodes(t.left, t.node, Up(LeftSide, t.node, t.key, t.bal, t.right, base));
      }
    }

    /** succ, which is nowhere in the tree, replaces self with its two subtrees and its tag. */
    method TakeOver(self: Node, succ: Node, ghost t: Shape, ghost path: Trail)
      requires t.Fork? && t.left.Fork? && t.right.Fork? && t.node == self && At(t, path)
      requires succ !in Nodes(t) && succ !in TrailNodes(path)
      modifies this`tree, Above(path), succ, t.left.node, t.right.node
      ensures At(Fork(succ, succ.key, t.bal, t.left, t.right), path) && succ.key == old(succ.key)
      ensures Nodes(Fork(succ, succ.key, t.bal, t.left, t.right)) == Nodes(t) - {self} + {succ}
    {
      hide Rep, Nodes, RepTrail, TrailNodes, Summit;
      ghost var l, r := t.left, t.right;
      RepElim(t, LeftSide, TrailParent(path));
      RootInside(l);
      RootInside(r);
      AboveInside(path);
      assert allocated(Nodes(l)) && allocated(Nodes(r)) && allocated(TrailNodes(path));
      Attach(succ, RightSide, self.right, self, r);
      assert Rep(l, self) && RepTrail(path, self);
      Attach(succ, LeftSide, self.left, self, l);
      assert Rep(r, succ) && RepTrail(path, self);
      succ.balance := self.balance;
      assert Rep(l, succ) && Rep(r, succ) && RepTrail(path, self);
      Promote(self, succ, path);
      assert Rep(l, succ) && Rep(r, succ);
      succ.parent := self.parent;
      RepIntro(succ, LeftSide, l, r);
    }

    /** The right child of self, which has no left child, moves up and takes over the left subtree and the tag. */
    method TakeOverNear(self: Node, succ: Node, ghost t: Shape, ghost path: Trail)
      requires t.Fork? && t.right.Fork? && t.right.left.Nil? && t.node == self && t.right.node == succ && At(t, path)
      modifies this`tree, Above(path), succ, if t.left.Fork? then {t.left.node} else {}
      ensures At(Fork(succ, t.right.key, t.bal, t.left, t.right.right), path)
      ensures Nodes(Fork(succ, t.right.key, t.bal, t.left, t.right.right)) == Nodes(t) - {self}
    {
      hide Rep, Nodes, RepTrail, TrailNodes, Summit;
      ghost var l, r := t.left, t.right.right;
      RepElim(t, LeftSide, TrailParent(path));
      RepElim(t.right, LeftSide, self);
      RootInside(l);
      RootInside(t.right.left);
      AboveInside(path);
      assert allocated(Nodes(l)) && allocated(Nodes(r)) && allocated(TrailNodes(path));
      Promote(self, succ, path);
      assert Rep(l, self) && Rep(r, succ);
      succ.parent := self.parent;
      Attach(succ, LeftSide, self.left, self, l);
      assert Rep(r, succ) && RepTrail(path, succ);
      succ.balance := self.balance;
      RepIntro(succ, LeftSide, l, r);
    }

    /** The leftmost node and the path to it, seen from the root of the subtree. */
    lemma {:induction false} DescendLeft(t: Shape, base: Trail)
      requires t.Fork? && At(t, base)
      ensures At(Leftmost(t), LeftmostPath(t, base))
      ensures Nodes(Leftmost(t)) + TrailNodes(LeftmostPath(t, base)) == Nodes(t) + TrailNodes(base)
      decreases t
    {
      if t.left.Fork? {
        ZipDown(t, base, LeftSide);
        DescendLeft(t.left, Up(LeftSide, t.node, t.key, t.bal, t.right, base));
      }
    }

    /** The walk along left links to the smallest node below `start`. */
    method FollowLeft(start: Node, ghost t: Shape, ghost p: Node?) returns (candidate: Node)
      requires t.Fork? && t.node == start && Rep(t, p)
      ensures candidate == Leftmost(t).node
    {
      candidate := start;
      ghost var r, q := t, p;
      while candidate.left != null
        invariant r.Fork? && candidate == r.node && Rep(r, q) && Leftmost(r) == Leftmost(t)
        decreases r
      {
        q := candidate;
        candidate := candidate.left;
        r := r.left;
      }
    }

    /** Where the leftmost node hangs: under a left link, unless it is the root. */
    static lemma {:induction false} LeftmostHole(t: Shape, base: Trail, base': Trail)
      requires t.Fork?
      ensures Leftmost(t).left.Nil?
      ensures t.left.Nil? ==> Leftmost(t) == t && LeftmostPath(t, base) == base && LeftmostPath(t, base') == base'
      ensures t.left.Fork? ==>
                && LeftmostPath(t, base).Up? && LeftmostPath(t, base').Up? && LeftmostPath(t, base).side == LeftSide
                && LeftmostPath(t, base').side == LeftSide && LeftmostPath(t, base).node == LeftmostPath(t, base').node
      decreases t
    {
      if t.left.Fork? {
        LeftmostHole(t.left, Up(LeftSide, t.node, t.key, t.bal, t.right, base),
                     Up(LeftSide, t.node, t.key, t.bal, t.right, base'));
      }
    }

    /** The successor leaves its place to its right subtree; self keeps its place. */
    method DetachSuccessor(self: Node, succ: Node, ghost t: Shape, ghost path: Trail)
      requires t.Fork? && t.right.Fork? && t.right.left.Fork? && t.node == self && At(t, path)
      requires succ == Leftmost(t.right).node
      modifies this`tree, Nodes(t) - {succ}
      ensures At(Fork(self, t.key, t.bal, t.left, Unhook(t.right)), path)
      ensures Nodes(Fork(self, t.key, t.bal, t.left, Unhook(t.right))) == Nodes(t) - {succ}
    {
      hide Rep, Nodes, RepTrail, TrailNodes, Summit, At, Unhook, Leftmost, LeftmostPath;
      ghost var down := Up(RightSide, self, t.key, t.bal, t.left, path);
      ghost var s, deep := Leftmost(t.right), LeftmostPath(t.right, down);
      ghost var t' := Fork(self, t.key, t.bal, t.left, Unhook(t.right));
      ZipDown(t, path, RightSide);
      AtElim(t.right, down);
      AtElim(t, path);
      UnhookNodes(t.right, self, down);
      NodesSide(t, RightSide);
      NodesSide(t', RightSide);
      SuccessorOutside(t, path, succ);
      DescendLeft(t.right, down);
      AtElim(s, deep);
      Fields(s, RightSide, TrailParent(deep));
      RootInside(s.right);
      ReplaceBy(succ, succ.right, s, RightSide, deep);
      ZipLeft(t.right, down);
      ZipUp(Unhook(t.right), down);
    }

    lemma SuccessorOutside(t: Shape, path: Trail, n: Node)
      requires t.Fork? && At(t, path) && n in Nodes(t.right)
      ensures n != t.node && n !in Nodes(t.left) && n !in TrailNodes(path)
    {
    }

    /** The successor of self leaves its place and takes that of self. */
    method PromoteSuccessor(self: Node, succ: Node, ghost t: Shape, ghost path: Trail)
      returns (shorterRoot: Node, shorterSide: Side)
      requires t.Fork? && t.left.Fork? && t.right.Fork? && t.node == self && At(t, path) && succ == Leftmost(t.right).node
      modifies this`tree, Nodes(t), TrailNodes(path)
      ensures var s, deep := Leftmost(t.right), LeftmostPath(t.right, SuccessorFrame(t, path));
              && At(s.right, deep) && Nodes(s.right) + TrailNodes(deep) == Nodes(t) - {self} + TrailNodes(path)
              && deep.Up? && shorterRoot == deep.node && shorterSide == deep.side
    {
      hide Rep, Nodes, RepTrail, TrailNodes, Summit, At, Unhook, Leftmost, LeftmostPath;
      ghost var down := Up(RightSide, self, t.key, t.bal, t.left, path);
      ghost var s, deep := Leftmost(t.right), LeftmostPath(t.right, down);
      LeftmostHole(t.right, down, SuccessorFrame(t, path));
      SuccessorFacts(t, path);
      UnhookRoot(t);
      AboveInside(path);
      if succ.parent.left == succ {
        shorterRoot, shorterSide := succ.parent, LeftSide;
        DetachSuccessor(self, succ, t, path);
        TakeOver(self, succ, Fork(self, t.key, t.bal, t.left, Unhook(t.right)), path);
      } else {
        shorterRoot, shorterSide := succ, RightSide;
        TakeOverNear(self, succ, t, path);
      }
      ghost var t' := Fork(succ, s.key, t.bal, t.left, Unhook(t.right));
      ZipDown(t', path, RightSide);
      ZipLeft(t.right, SuccessorFrame(t, path));
    }

    static lemma UnhookRoot(t: Shape)
      requires t.Fork? && t.left.Fork? && t.right.Fork?
      ensures t.left.node in Nodes(t) && t.right.node in Nodes(t)
      ensures t.right.left.Nil? ==> Unhook(t.right) == t.right.right
      ensures t.right.left.Fork? ==> Unhook(t.right).Fork? && Unhook(t.right).node == t.right.node
    {
    }

    /** What the code can read of the successor. */
    lemma SuccessorFacts(t: Shape, path: Trail)
      requires t.Fork? && t.left.Fork? && t.right.Fork? && At(t, path)
      ensures var s, down := Leftmost(t.right), Up(RightSide, t.node, t.key, t.bal, t.left, path);
              && s.node in Nodes(t) && s.node.key == s.key && s.node != t.node
              && LeftmostPath(t.right, down).Up? && s.node.parent == LeftmostPath(t.right, down).node
              && (t.right.left.Fork? <==> s.node.parent.left == s.node)
              && s.node !in TrailNodes(path)
    {
      var s, down := Leftmost(t.right), Up(RightSide, t.node, t.key, t.bal, t.left, path);
      ZipDown(t, path, RightSide);
      DescendLeft(t.right, down);
      LeftmostHole(t.right, down, down);
      HoleSide(s, LeftmostPath(t.right, down));
      UnhookNodes(t.right, t.node, down);
      SuccessorOutside(t, path, s.node);
    }

    /** Removal of a node with two children: its successor takes its place. */
    method RemoveDouble(self: Node, ghost t: Shape, ghost path: Trail)
      requires t.Fork? && t.left.Fork? && t.right.Fork? && t.node == self && At(t, path)
      requires Avl(t) && AvlPath(path, Height(t))
      modifies this`tree, this`singleRotations, this`doubleRotations, Nodes(t), TrailNodes(path)
      ensures At(RemoveAt(t, path), Top) && Nodes(RemoveAt(t, path)) == Nodes(t) - {self} + TrailNodes(path)
    {
      hide Rep, Nodes, RepTrail, TrailNodes, Summit, At, Leftmost, LeftmostPath, Avl, AvlPath, Height, Lift;
      SuccessorAvl(t, path);
      AtElim(t, path);
      Fields(t, RightSide, TrailParent(path));
      assert allocated(Nodes(t)) && allocated(TrailNodes(path));
      var successor := FollowLeft(self.right, t.right, self);
      var shorterRoot, shorterSide := PromoteSuccessor(self, successor, t, path);
      LiftFrom(shorterRoot, shorterSide, Leftmost(t.right).right, LeftmostPath(t.right, SuccessorFrame(t, path)));
    }

    /** remove: self leaves the tree with its links and its tag cleared. */
    method RemoveNode(self: Node, ghost t: Shape, ghost path: Trail)
      requires t.Fork? && t.node == self && At(t, path) && Avl(t) && AvlPath(path, Height(t))
      modifies this, Nodes(t), TrailNodes(path)
      ensures At(RemoveAt(t, path), Top) && Nodes(RemoveAt(t, path)) == Nodes(t) - {self} + TrailNodes(path)
      ensures self.balance == New && self.left == null && self.right == null && self.parent == null
      ensures insertions == old(insertions) && deletions == old(deletions) + 1
    {
      hide Rep, Nodes, RepTrail, TrailNodes, Summit, At, Leftmost, LeftmostPath, SuccessorFrame, Avl, AvlPath, Height, Lift;
      EmptySide(t);
      AtElim(t, path);
      Fields(t, LeftSide, TrailParent(path));
      RootInside(t.left);
      RootInside(t.right);
      NodesSide(t, LeftSide);
      SelfOutside(t, LeftSide, path);
      SelfOutside(t, RightSide, path);
      ghost var after := RemoveAt(t, path);
      deletions := deletions + 1;
      if self.left == null {
        RemoveSingle(self, self.right, t, RightSide, path);
      } else if self.right == null {
        RemoveSingle(self, self.left, t, LeftSide, path);
      } else {
        RemoveDouble(self, t, path);
      }
      assert self !in Nodes(after) && allocated(Nodes(after));
      TopEmpty(Top);
      self.balance, self.left, self.right, self.parent := New, null, null, null;
    }

    // ----- insertion

    /** The descent to a free position; `previous` is the node below which it lies. */
    method Descend(k: int, ghost t: Shape) returns (previous: Node?, ghost seat: Trail)
      requires At(t, Top)
      ensures seat == Seat(t, k, Top) && At(Nil, seat) && TrailNodes(seat) == Nodes(t)
      ensures previous == TrailParent(seat) && (t.Fork? ==> seat.Up? && (previous.key < k <==> seat.side == RightSide))
    {
      hide Rep, Nodes, RepTrail, TrailNodes, Summit, At;
      ghost var r := t;
      seat := Top;
      var current := tree;
      previous := null;
      TopRoot(t);
      while current != null
        invariant current == Root(r) && At(r, seat) && previous == TrailParent(seat) && Seat(r, k, seat) == Seat(t, k, Top)
        invariant Nodes(r) + TrailNodes(seat) == Nodes(t)
        invariant seat.Up? ==> (previous.key < k <==> seat.side == RightSide)
        invariant seat.Top? ==> r == t
        decreases r
      {
        previous := current;
        AtElim(r, seat);
        Fields(r, RightSide, TrailParent(seat));
        if current.key < k {
          current := current.right;
          ZipDown(r, seat, RightSide);
          r, seat := r.right, Up(RightSide, r.node, r.key, r.bal, r.left, seat);
        } else {
          current := current.left;
          ZipDown(r, seat, LeftSide);
          r, seat := r.left, Up(LeftSide, r.node, r.key, r.bal, r.right, seat);
        }
      }
      RootInside(r);
    }

    lemma TopRoot(t: Shape)
      requires At(t, Top)
      ensures tree == Root(t) && TrailNodes(Path<Node>.Top) == {}
    {
    }

    /** The new leaf is linked below the node that the descent ended at. */
    method HangLeaf(self: Node, previous: Node, side: Side, ghost seat: Trail)
      requires seat.Up? && At(Nil, seat) && previous == seat.node && side == seat.side && self !in TrailNodes(seat)
      requires self.left == null && self.right == null
      modifies self, previous
      ensures self.key == old(self.key) && At(Fork(self, self.key, Balanced, Nil, Nil), seat)
    {
      assert allocated(Nodes(seat.other)) && allocated(TrailNodes(seat.up));
      self.balance := Balanced;
      self.parent := previous;
      assert Rep(seat.other, previous) && RepTrail(seat.up, previous);
      previous.SetChild(side, self);
      assert Rep(seat.other, previous) && RepTrail(seat.up, previous);
    }

    /** The new leaf below `previous`, and the walk upwards that restores the balance. */
    method GrowAt(self: Node, previous: Node, side: Side, ghost seat: Trail)
      requires seat.Up? && At(Nil, seat) && AvlPath(seat, 0)
      requires previous == seat.node && side == seat.side && self !in TrailNodes(seat)
      requires self.left == null && self.right == null
      modifies this`tree, this`singleRotations, this`doubleRotations, self, TrailNodes(seat)
      ensures At(InsertAt(self, old(self.key), seat), Top)
      ensures Nodes(InsertAt(self, old(self.key), seat)) == {self} + TrailNodes(seat)
    {
      hide Rep, Nodes, RepTrail, TrailNodes, Summit, At, AvlPath, Added, AddedPre;
      ghost var leaf := Fork(self, self.key, Balanced, Nil, Nil);
      ghost var whole := Make(seat.node, seat.key, seat.bal, seat.side, leaf, seat.other);
      LeafGrown(self, self.key);
      AddedUp(leaf, seat);
      MakeNode(seat, leaf);
      LeafNodes(self);
      AboveInside(seat);
      HangLeaf(self, previous, side, seat);
      ZipUp(leaf, seat);
      AddedOn(previous, side, whole, seat.up);
    }

    static lemma LeafNodes(n: Node)
      ensures Nodes(Fork(n, n.key, Balanced, Nil, Nil)) == {n} && Nodes(Nil) == {}
    {
    }

    lemma LeafAlone(n: Node)
      requires tree == n && n.left == null && n.right == null && n.parent == null && n.balance == Balanced
      ensures At(Fork(n, n.key, Balanced, Nil, Nil), Top)
    {
    }

    /** insert: self becomes a leaf at the position its key calls for. */
    method InsertNode(self: Node, ghost t: Shape)
      requires At(t, Top) && Avl(t) && Sorted(Inorder(t)) && Fresh(Inorder(t), self.key)
      requires self !in Nodes(t) && self.left == null && self.right == null && self.parent == null
      modifies this, self, Nodes(t)
      ensures AvlPath(Seat(t, old(self.key), Top), 0) && At(InsertAt(self, old(self.key), Seat(t, old(self.key), Top)), Top)
      ensures Nodes(InsertAt(self, old(self.key), Seat(t, old(self.key), Top))) == Nodes(t) + {self}
      ensures insertions == old(insertions) + 1 && deletions == old(deletions)
    {
      hide Rep, Nodes, RepTrail, TrailNodes, Summit, At, Avl, AvlPath, Sorted, Inorder, Fresh, Added, AddedPre;
      InsertCorrect(t, self, self.key);
      TopRoot(t);
      LeafNodes(self);
      insertions := insertions + 1;
      if tree == null {
        tree := self;
        self.balance := Balanced;
        LeafAlone(self);
        return;
      }
      assert allocated(Nodes(t));
      var previous, seat := Descend(self.key, t);
      GrowAt(self, previous, if previous.key < self.key then RightSide else LeftSide, seat);
    }

    // ----- the container

    ghost predicate Valid()
      reads this, Nodes(shape)
    {
      && At(shape, Top) && Avl(shape) && Sorted(Inorder(shape))
      && insertions == deletions + |Inorder(shape)|
    }

    /** The elements with their keys, in ascending order. */
    ghost function Contents(): seq<(Node, int)>
      reads this`shape
    {
      Inorder(shape)
    }

    constructor ()
      ensures Valid() && Contents() == [] && Nodes(shape) == {}
      ensures insertions == deletions == singleRotations == doubleRotations == 0
    {
      tree := null;
      insertions, deletions, singleRotations, doubleRotations := 0, 0, 0, 0;
      shape := Nil;
    }

    /** Inserting a key twice trips an assertion in the source. */
    method Insert(k: int) returns (element: Node)
      requires Valid() && Fresh(Contents(), k)
      modifies this, Nodes(shape)
      ensures Valid() && fresh(element) && Contents() == Inserted(old(Contents()), (element, k))
      ensures Nodes(shape) == old(Nodes(shape)) + {element}
    {
      hide At, Nodes, Avl, AvlPath, Sorted, Inorder, Fresh, Inserted, InsertAt, Seat;
      ghost var t := shape;
      TopRoot(t);
      assert allocated(Nodes(t));
      element := new Node(k);
      InsertNode(element, t);
      InsertCorrect(t, element, k);
      InsertedSorted(Inorder(t), (element, k));
      InsertedLength(Inorder(t), (element, k));
      shape := InsertAt(element, k, Seat(t, k, Top));
    }

    static lemma InsertedLength(s: seq<(Node, int)>, x: (Node, int))
      requires multiset(Inserted(s, x)) == multiset(s) + multiset{x}
      ensures |Inserted(s, x)| == |s| + 1
    {
      assert |multiset(Inserted(s, x))| == |multiset(s)| + 1;
    }

    /** The subtree of a node and the path to it. */
    lemma {:induction false} Locate(t: Shape, path: Trail, n: Node) returns (sub: Shape, p: Trail)
      requires At(t, path) && n in Nodes(t) && Avl(t) && AvlPath(path, Height(t))
      ensures sub.Fork? && sub.node == n && At(sub, p) && Avl(sub) && AvlPath(p, Height(sub))
      ensures Plug(sub, p) == Plug(t, path) && Nodes(sub) + TrailNodes(p) == Nodes(t) + TrailNodes(path)
      decreases t
    {
      hide Rep, RepTrail, Inorder, Summit, At, TrailNodes;
      if t.node == n {
        return t, path;
      }
      var side := if n in Nodes(t.left) then LeftSide else RightSide;
      ZipDown(t, path, side);
      sub, p := Locate(Kid(t, side), Up(side, t.node, t.key, t.bal, Kid(t, Opposite(side)), path), n);
    }

    /** An entry of the in-order sequence is a node of the tree and shows that node's key. */
    static lemma {:induction false} EntryIsNode(t: Shape, p: Node?, x: (Node, int))
      requires Rep(t, p) && x in Inorder(t)
      ensures x.0 in Nodes(t) && x.0.key == x.1
      decreases t
    {
      if x in Inorder(t.left) {
        EntryIsNode(t.left, t.node, x);
      } else if x in Inorder(t.right) {
        EntryIsNode(t.right, t.node, x);
      }
    }

    /** The removal of a node found by a search. */
    method RemoveFound(candidate: Node)
      requires Valid() && (candidate, candidate.key) in Contents()
      modifies this, Nodes(shape)
      ensures Valid() && Contents() == Without(old(Contents()), old(candidate.key))
      ensures Nodes(shape) == old(Nodes(shape)) - {candidate}
    {
      hide Nodes, TrailNodes, Rep, RepTrail, Avl, AvlPath, Sorted, Inorder, Without, RemoveAt, Plug;
      ghost var whole := shape;
      TopRoot(whole);
      EntryIsNode(whole, null, (candidate, candidate.key));
      TopIsAvl(whole);
      ghost var t, path := Locate(whole, Top, candidate);
      PlugTop(whole);
      AtElim(t, path);
      RepLinked(t, TrailParent(path));
      RemoveCorrect(t, path);
      RootInside(t);
      SelfOutside(t, LeftSide, path);
      RemoveNode(candidate, t, path);
      shape := RemoveAt(t, path);
    }

    static lemma TopIsAvl(t: Shape)
      ensures AvlPath(Path<Node>.Top, Height(t))
    {
    }

    static lemma PlugTop(t: Shape)
      ensures Plug(t, Top) == t
    {
    }

    method LessOrEqual(k: int) returns (r: Node?)
      requires Valid()
      ensures Predecessor(Contents(), k, true, r)
    {
      TopRoot(shape);
      if tree == null {
        return null;
      }
      r := FindFirstLessThanOrEqualTo(tree, k, shape, null);
    }

    method Less(k: int) returns (r: Node?)
      requires Valid()
      ensures Predecessor(Contents(), k, false, r)
    {
      TopRoot(shape);
      if tree == null {
        return null;
      }
      r := FindFirstLessThan(tree, k, shape, null);
    }

    method Greater(k: int) returns (r: Node?)
      requires Valid()
      ensures Successor(Contents(), k, false, r)
    {
      TopRoot(shape);
      if tree == null {
        return null;
      }
      r := FindFirstGreaterThan(tree, k, shape, null);
    }

    method GreaterOrEqual(k: int) returns (r: Node?)
      requires Valid()
      ensures Successor(Contents(), k, true, r)
    {
      TopRoot(shape);
      if tree == null {
        return null;
      }
      r := FindFirstGreaterThanOrEqualTo(tree, k, shape, null);
    }

    method Lookup(k: int) returns (r: Node?)
      requires Valid()
      ensures r == null <==> Fresh(Contents(), k)
      ensures r != null ==> r.key == k && (r, k) in Contents()
    {
      r := LessOrEqual(k);
      if r != null && r.key != k {
        r := null;
      }
    }

    /** remove by key: the element with the key, if there is one, leaves. */
    method RemoveKey(k: int) returns (removed: Node?)
      requires Valid()
      modifies this, Nodes(shape)
      ensures Valid() && Contents() == Without(old(Contents()), k)
      ensures removed == null <==> old(Fresh(Contents(), k))
      ensures removed != null ==> (removed, k) in old(Contents()) && Nodes(shape) == old(Nodes(shape)) - {removed}
    {
      hide At, Nodes, Avl, Sorted, Inorder, Without;
      assert allocated(Nodes(shape));
      removed := Lookup(k);
      if removed != null {
        RemoveFound(removed);
      } else {
        WithoutFresh(Contents(), k);
      }
    }

    /** remove by element, which must be in the tree. */
    method RemoveElement(k: int)
      requires Valid() && !Fresh(Contents(), k)
      modifies this, Nodes(shape)
      ensures Valid() && Contents() == Without(old(Contents()), k)
    {
      hide At, Nodes, Avl, Sorted, Inorder, Without;
      TopRoot(shape);
      AtElim(shape, Top);
      NilEntries();
      assert allocated(Nodes(shape));
      var candidate := FindFirstLessThanOrEqualTo(tree, k, shape, null);
      RemoveFound(candidate);
    }

    method Size() returns (n: nat)
      requires Valid()
      ensures n == |Contents()|
    {
      n := insertions - deletions;
    }

    method Empty() returns (b: bool)
      requires Valid()
      ensures b <==> Contents() == []
    {
      TopRoot(shape);
      b := tree == null;
    }

    /** The walk along left links ends at the first element, the walk along right links at the last. */
    method FindMin() returns (r: Node?)
      requires Valid()
      ensures r == null <==> Contents() == []
      ensures r != null ==> r == Contents()[0].0
    {
      TopRoot(shape);
      if tree == null {
        return null;
      }
      r := FollowLeft(tree, shape, null);
      LeftmostFirst(shape);
    }

    static lemma {:induction false} LeftmostFirst(t: Shape)
      requires t.Fork?
      ensures |Inorder(t)| > 0 && Inorder(t)[0].0 == Leftmost(t).node
    {
      if t.left.Fork? {
        LeftmostFirst(t.left);
      }
    }

    method FindMax() returns (r: Node?)
      requires Valid()
      ensures r == null <==> Contents() == []
      ensures r != null ==> r == Contents()[|Contents()| - 1].0
    {
      TopRoot(shape);
      if tree == null {
        return null;
      }
      r := tree;
      ghost var t, p: Node? := shape, null;
      while r.right != null
        invariant t.Fork? && r == t.node && Rep(t, p)
        invariant Inorder(t)[|Inorder(t)| - 1] == Inorder(shape)[|Inorder(shape)| - 1]
        decreases t
      {
        p := r;
        r := r.right;
        t := t.right;
      }
    }

    /** What follows position i - 1 in key order is position i. */
    static lemma NextEntry(s: seq<(Node, int)>, i: nat, r: Node?)
      requires 0 < i <= |s| && Sorted(s) && Successor(s, s[i - 1].1, false, r)
      ensures r == null <==> i == |s|
      ensures r != null ==> r == s[i].0
    {
    }

    /** foreach: every element is visited once, in ascending key order. */
    method Foreach() returns (visited: seq<Node>)
      requires Valid()
      ensures |visited| == |Contents()| && forall i :: 0 <= i < |visited| ==> visited[i] == Contents()[i].0
    {
      hide Sorted, Inorder, At, Avl, Successor;
      visited := [];
      assert allocated(Nodes(shape));
      var element := FindMin();
      while element != null
        invariant Valid()
        invariant |visited| <= |Contents()| && forall i :: 0 <= i < |visited| ==> visited[i] == Contents()[i].0
        invariant element == null <==> |visited| == |Contents()|
        invariant element != null ==> element == Contents()[|visited|].0
        decreases |Contents()| - |visited|
      {
        AtElim(shape, Top);
        EntryIsNode(shape, null, Contents()[|visited|]);
        visited := visited + [element];
        assert allocated(Nodes(shape));
        element := Greater(element.key);
        NextEntry(Contents(), |visited|, element);
      }
    }

    /**
     * check: it accepts exactly the balanced trees whose links match, whose nodes are in order with their children and whose size is
     * what the counters say. Every valid tree is one of them.
     */
    method Check() returns (ok: bool)
      requires Laid(shape) && tree == Root(shape)
      ensures ok <==> Avl(shape) && LocallyOrdered(shape) && Linked(shape, null) && insertions - deletions == |Inorder(shape)|
      ensures Valid() ==> ok
    {
      hide Avl, LocallyOrdered, Linked, Inorder, Laid, Height;
      var counted := 0;
      ok := true;
      NilChecked();
      if tree != null {
        assert allocated(Nodes(shape));
        var depth;
        ok, depth, counted := CheckDepth(tree, shape);
        LinkedTop(shape, tree.parent);
        ok := ok && tree.parent == null;
      }
      ok := ok && insertions - deletions == counted;
      ValidChecked();
    }

    lemma NilChecked()
      ensures Avl<Node>(Nil) && LocallyOrdered<Node>(Nil) && Linked(Nil, null) && Inorder<Node>(Nil) == []
    {
    }

    lemma LinkedTop(t: Shape, p: Node?)
      requires t.Fork? && t.node.parent == p
      ensures Linked(t, null) <==> p == null && Linked(t, p)
    {
    }

    lemma ValidChecked()
      ensures Valid() ==> Avl(shape) && LocallyOrdered(shape) && Linked(shape, null) && insertions - deletions == |Inorder(shape)|
      ensures Valid() ==> Laid(shape) && tree == Root(shape)
    {
      if Valid() {
        TopRoot(shape);
        AtElim(shape, Top);
        SortedIsLocal(shape);
        RepLinked(shape, null);
      }
    }
  }
}
