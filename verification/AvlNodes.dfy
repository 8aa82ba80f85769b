/**
  The tree operations on linked nodes, each proved to turn the nodes into exactly the value that
  the corresponding function of `AvlTree` computes.
 */
module AvlNodes {
  import opened AvlTree

  class Node {
    var base: int
    var size: int
    var height: int
    var left: Node?
    var right: Node?

    /** A node for one free block; the storage comes from outside the heap. */
    constructor (base: int, size: int)
      ensures this.base == base && this.size == size && height == 1 && left == null && right == null
    {
      this.base, this.size, height, left, right := base, size, 1, null, null;
    }
  }

  /** The nodes hanging from `n` hold exactly the value `t`. */
  ghost predicate Rep(n: Node?, t: Tree<Node>)
    reads Ids(t)
    decreases t
  {
    if t.Nil? then n == null
    else
      && n == t.id
      && n.base == t.base && n.size == t.size && n.height == t.height
      && Rep(n.left, t.left)
      && Rep(n.right, t.right)
  }

  /** Storage that is both laid out as `t` and free of sharing. */
  ghost predicate Holds(n: Node?, t: Tree<Node>)
    reads Ids(t)
  {
    Distinct(t) && Rep(n, t)
  }

  /** The stored height, 0 for no node. */
  function HeightOf(n: Node?): int
    reads n
  {
    if n == null then 0 else n.height
  }

  function BalanceOf(n: Node?): int
    reads n, if n == null then {} else {n.left, n.right}
  {
    if n == null then 0 else HeightOf(n.left) - HeightOf(n.right)
  }

  lemma {:induction false} StoredHeights(n: Node?, t: Tree<Node>)
    requires Rep(n, t)
    ensures HeightOf(n) == H(t) && BalanceOf(n) == Balance(t)
    ensures n != null ==> Rep(n.left, t.left) && Rep(n.right, t.right)
    ensures n == null <==> t.Nil?
  {
  }

  lemma RepRoot(n: Node?, t: Tree<Node>)
    requires Rep(n, t) && t.Br?
    ensures n == t.id && n.base == t.base && n.size == t.size && n.height == t.height
  {
  }

  lemma StoredHeight(n: Node?, t: Tree<Node>)
    requires Rep(n, t)
    ensures HeightOf(n) == H(t)
  {
  }

  /** The three subtrees around a right rotation share nothing with each other or with the two nodes. */
  lemma {:induction false} ApartRight<Id>(t: Tree<Id>)
    requires Distinct(t) && t.Br? && t.left.Br?
    ensures var a, b, c := Ids(t.left.left), Ids(t.left.right), Ids(t.right);
            && a !! b !! c && t.id != t.left.id
            && t.id !in a + b + c && t.left.id !in a + b + c
  {
    assert Ids(t.left) == Ids(t.left.left) + {t.left.id} + Ids(t.left.right);
  }

  lemma {:induction false} ApartLeft<Id>(t: Tree<Id>)
    requires Distinct(t) && t.Br? && t.right.Br?
    ensures var a, b, c := Ids(t.left), Ids(t.right.left), Ids(t.right.right);
            && a !! b !! c && t.id != t.right.id
            && t.id !in a + b + c && t.right.id !in a + b + c
  {
    assert Ids(t.right) == Ids(t.right.left) + {t.right.id} + Ids(t.right.right);
  }

  /** A node whose fields and subtrees are in place holds the tree. */
  lemma {:induction false} Assembled(n: Node, t: Tree<Node>)
    requires t.Br? && n == t.id && n.base == t.base && n.size == t.size && n.height == t.height
    requires Rep(n.left, t.left) && Rep(n.right, t.right)
    ensures Rep(n, t)
  {
  }

  // ---------------------------------------------------------------- links that need not form a tree

  /** The links from `n` on are those of `t`, whatever blocks and heights the nodes hold. */
  ghost predicate Laid(n: Node?, t: Tree<Node>)
    reads Ids(t)`left, Ids(t)`right
    decreases t
  {
    if t.Nil? then n == null else n == t.id && Laid(n.left, t.left) && Laid(n.right, t.right)
  }

  /** No link leads out of `W`. */
  ghost predicate Closed(W: set<Node>)
    reads W`left, W`right
  {
    forall x :: x in W ==> (x.left == null || x.left in W) && (x.right == null || x.right in W)
  }

  lemma {:induction false} RepClosed(n: Node?, t: Tree<Node>)
    requires Rep(n, t)
    ensures Closed(Ids(t)) && (n != null ==> n in Ids(t))
    decreases t
  {
    if t.Br? {
      RepClosed(n.left, t.left);
      RepClosed(n.right, t.right);
    }
  }

  /** The tree a right rotation came from. */
  function BackRight<Id>(r: Tree<Id>): Tree<Id> {
    if r.Nil? || r.right.Nil? then r else r.right.(left := r.(right := r.right.left))
  }

  /** The tree a left rotation came from. */
  function BackLeft<Id>(r: Tree<Id>): Tree<Id> {
    if r.Nil? || r.left.Nil? then r else r.left.(right := r.(left := r.left.right))
  }

  lemma {:induction false} BackKeepsIds<Id>(r: Tree<Id>)
    ensures Ids(BackRight(r)) == Ids(r) && Ids(BackLeft(r)) == Ids(r)
    ensures Distinct(r) ==> Distinct(BackRight(r)) && Distinct(BackLeft(r))
  {
    if r.Br? && r.right.Br? {
      var x := r.(right := r.right.left);
      assert Ids(x) == Ids(r.left) + {r.id} + Ids(r.right.left);
      assert Ids(r.right) == Ids(r.right.left) + {r.right.id} + Ids(r.right.right);
      assert BackRight(r) == r.right.(left := x) && BackRight(r).right == r.right.right;
      if Distinct(r) { assert Distinct(r.right) && Distinct(x); }
    }
    if r.Br? && r.left.Br? {
      var x := r.(left := r.left.right);
      assert Ids(x) == Ids(r.left.right) + {r.id} + Ids(r.right);
      assert Ids(r.left) == Ids(r.left.left) + {r.left.id} + Ids(r.left.right);
      assert BackLeft(r) == r.left.(right := x) && BackLeft(r).left == r.left.left;
      if Distinct(r) { assert Distinct(r.left) && Distinct(x); }
    }
  }

  // ---------------------------------------------------------------- rotations

  /** The statements of a right rotation, on any nodes. */
  method TurnRight(y: Node) returns (x: Node)
    requires y.left != null
    modifies y`left, y`height, y.left`right, y.left`height
    ensures x == old(y.left) && x.right == y && y.left == old(y.left.right)
    ensures y != x && y.right != y && y.right != x && y.left != y && y.left != x && x.left != x && x.left != y ==>
              && y.height == 1 + Max(old(HeightOf(y.left.right)), old(HeightOf(y.right)))
              && x.height == 1 + if old(HeightOf(y.left.left)) > old(HeightOf(y.right)) then old(HeightOf(y.left.left))
                                 else y.height
  {
    x := y.left;
    var t2 := x.right;
    x.right := y;
    y.left := t2;
    y.height := 1 + if HeightOf(y.left) > HeightOf(y.right) then HeightOf(y.left) else HeightOf(y.right);
    x.height := 1 + if HeightOf(x.left) > HeightOf(y.right) then HeightOf(x.left) else HeightOf(x.right);
  }

  /** A right rotation: on a tree it rotates it; on any nodes, what is a tree afterwards was one before. */
  method RotateNodeRight(y: Node, ghost t: Tree<Node>, ghost W: set<Node>) returns (x: Node)
    requires y.left != null && y in W && Closed(W)
    modifies y`left, y`height, y.left`right, y.left`height
    ensures x == old(y.left) && x in W && Closed(W)
    ensures old(Holds(y, t)) && t.left.Br? ==> Holds(x, AvlTree.RotateRight(t))
    ensures forall r: Tree<Node> {:trigger Laid(x, r)} :: old(allocated(r)) && Distinct(r) && Laid(x, r) ==>
              r.Br? && r.right.Br? && old(Laid(y, BackRight(r)))
  {
    ghost var tree, t2 := Holds(y, t) && t.left.Br?, y.left.right;
    if tree {
      ApartRight(t);
      StoredHeights(y, t);
      StoredHeights(y.left, t.left);
      StoredHeight(y.left.left, t.left.left);
      StoredHeight(t2, t.left.right);
      StoredHeight(y.right, t.right);
      assert allocated(Ids(t.left.left)) && allocated(Ids(t.left.right)) && allocated(Ids(t.right));
    }
    x := TurnRight(y);
    if tree {
      assert Rep(x.left, t.left.left) && Rep(y.left, t.left.right) && Rep(y.right, t.right);
      RotateRightKeepsIds(t);
      Assembled(y, Measured(t.(left := t.left.right)));
      Assembled(x, AvlTree.RotateRight(t));
    }
    forall r: Tree<Node> | old(allocated(r)) && Distinct(r) && Laid(x, r)
      ensures r.Br? && r.right.Br? && old(Laid(y, BackRight(r)))
    {
      assert Laid(x.left, r.left) && Laid(y, r.right) && r.right.id in Ids(r.right);
      assert Laid(y.left, r.right.left) && Laid(y.right, r.right.right);
      assert r.right.Br? && r.right.id == y && Distinct(r.right);
      assert x !in Ids(r.left) && x !in Ids(r.right) && y !in Ids(r.left);
      assert y !in Ids(r.right.left) && y !in Ids(r.right.right);
      assert old(allocated(Ids(r.left)) && allocated(Ids(r.right.left)) && allocated(Ids(r.right.right)));
      assert old(Laid(x.left, r.left));
      assert old(Laid(t2, r.right.left));
      assert old(Laid(y.right, r.right.right));
    }
  }

  /** The statements of a left rotation, on any nodes. */
  method TurnLeft(x: Node) returns (y: Node)
    requires x.right != null
    modifies x`right, x`height, x.right`left, x.right`height
    ensures y == old(x.right) && y.left == x && x.right == old(x.right.left)
    ensures y != x && x.left != y && x.left != x && x.right != y && x.right != x && y.right != x && y.right != y ==>
              && y.height == 1 + Max(x.height, old(HeightOf(x.right.right)))
              && x.height == 1 + if old(HeightOf(x.left)) > old(HeightOf(x.right.right)) then old(HeightOf(x.left))
                                 else old(HeightOf(x.right.left))
  {
    y := x.right;
    var t2 := y.left;
    y.left := x;
    x.right := t2;
    x.height := 1 + if HeightOf(x.left) > HeightOf(y.right) then HeightOf(x.left) else HeightOf(x.right);
    y.height := 1 + if HeightOf(y.left) > HeightOf(y.right) then HeightOf(y.left) else HeightOf(y.right);
  }

  /** A left rotation: on a tree it rotates it; on any nodes, what is a tree afterwards was one before. */
  method RotateNodeLeft(x: Node, ghost t: Tree<Node>, ghost W: set<Node>) returns (y: Node)
    requires x.right != null && x in W && Closed(W)
    modifies x`right, x`height, x.right`left, x.right`height
    ensures y == old(x.right) && y in W && Closed(W)
    ensures old(Holds(x, t)) && t.right.Br? ==> Holds(y, AvlTree.RotateLeft(t))
    ensures forall r: Tree<Node> {:trigger Laid(y, r)} :: old(allocated(r)) && Distinct(r) && Laid(y, r) ==>
              r.Br? && r.left.Br? && old(Laid(x, BackLeft(r)))
  {
    ghost var tree, t2 := Holds(x, t) && t.right.Br?, x.right.left;
    if tree {
      ApartLeft(t);
      StoredHeights(x, t);
      StoredHeights(x.right, t.right);
      StoredHeight(x.right.right, t.right.right);
      StoredHeight(t2, t.right.left);
      StoredHeight(x.left, t.left);
      assert allocated(Ids(t.right.right)) && allocated(Ids(t.right.left)) && allocated(Ids(t.left));
    }
    y := TurnLeft(x);
    if tree {
      assert Rep(y.right, t.right.right) && Rep(x.right, t.right.left) && Rep(x.left, t.left);
      RotateLeftKeepsIds(t);
      Assembled(x, AvlTree.RotateLeft(t).left);
      Assembled(y, AvlTree.RotateLeft(t));
    }
    forall r: Tree<Node> | old(allocated(r)) && Distinct(r) && Laid(y, r)
      ensures r.Br? && r.left.Br? && old(Laid(x, BackLeft(r)))
    {
      assert Laid(y.right, r.right) && Laid(x, r.left) && r.left.id in Ids(r.left);
      assert Laid(x.right, r.left.right) && Laid(x.left, r.left.left);
      assert r.left.Br? && r.left.id == x && Distinct(r.left);
      assert y !in Ids(r.right) && y !in Ids(r.left) && x !in Ids(r.right);
      assert x !in Ids(r.left.right) && x !in Ids(r.left.left);
      assert old(allocated(Ids(r.right)) && allocated(Ids(r.left.right)) && allocated(Ids(r.left.left)));
      assert old(Laid(y.right, r.right));
      assert old(Laid(t2, r.left.right));
      assert old(Laid(x.left, r.left.left));
    }
  }

  /** The tree a left-right rotation came from. */
  function BackLeftRight<Id>(r: Tree<Id>): Tree<Id> {
    var q := BackRight(r);
    if q.Nil? then q else q.(left := BackLeft(q.left))
  }

  /** The tree a right-left rotation came from. */
  function BackRightLeft<Id>(r: Tree<Id>): Tree<Id> {
    var q := BackLeft(r);
    if q.Nil? then q else q.(right := BackRight(q.right))
  }

  /** Turns the left child of `n` left. */
  method TurnLeftChild(n: Node, ghost t: Tree<Node>, ghost W: set<Node>)
    requires n.left != null && n.left.right != null && n in W && Closed(W)
    modifies n`left, n.left`right, n.left`height, n.left.right`left, n.left.right`height
    ensures n.left == old(n.left.right) && Closed(W)
    ensures old(Holds(n, t)) && t.Br? && t.left.Br? && t.left.right.Br? ==>
              Holds(n, t.(left := AvlTree.RotateLeft(t.left)))
    ensures forall q: Tree<Node> {:trigger Laid(n, q)} :: old(allocated(q)) && Distinct(q) && Laid(n, q) ==>
              q.Br? && q.left.Br? && old(Laid(n, q.(left := BackLeft(q.left))))
  {
    hide AvlTree.RotateLeft, BackLeft;
    ghost var tree := Holds(n, t) && t.left.Br? && t.left.right.Br?;
    ghost var u := if tree then t.(left := AvlTree.RotateLeft(t.left)) else t;
    if tree {
      StoredHeights(n, t);
      StoredHeights(n.left, t.left);
      RotateLeftKeepsIds(t.left);
      assert t.left.right.id in Ids(t.left) && allocated(Ids(t.right));
    }
    ghost var c := n.left;
    var l := RotateNodeLeft(n.left, if tree then t.left else t, W);
    assert tree ==> Rep(l, u.left) && Rep(n.right, u.right);
    label Turned:
    n.left := l;
    if tree { Assembled(n, u); }
    forall q: Tree<Node> | old(allocated(q)) && Distinct(q) && Laid(n, q)
      ensures q.Br? && q.left.Br? && old(Laid(n, q.(left := BackLeft(q.left))))
    {
      hide Rep, Holds;
      assert Laid(l, q.left) && Laid(n.right, q.right) && n !in Ids(q.left) && n !in Ids(q.right);
      assert old(allocated(Ids(q.left)) && allocated(Ids(q.right)));
      assert old@Turned(Laid(l, q.left)) && old@Turned(Laid(n.right, q.right));
      BackKeepsIds(q.left);
      assert old(Laid(c, BackLeft(q.left)));
      assert c in Ids(q.left) && l in Ids(q.left);
      assert old(Laid(n.right, q.right));
    }
  }

  /** Turns the right child of `n` right. */
  method TurnRightChild(n: Node, ghost t: Tree<Node>, ghost W: set<Node>)
    requires n.right != null && n.right.left != null && n in W && Closed(W)
    modifies n`right, n.right`left, n.right`height, n.right.left`right, n.right.left`height
    ensures n.right == old(n.right.left) && Closed(W)
    ensures old(Holds(n, t)) && t.Br? && t.right.Br? && t.right.left.Br? ==>
              Holds(n, t.(right := AvlTree.RotateRight(t.right)))
    ensures forall q: Tree<Node> {:trigger Laid(n, q)} :: old(allocated(q)) && Distinct(q) && Laid(n, q) ==>
              q.Br? && q.right.Br? && old(Laid(n, q.(right := BackRight(q.right))))
  {
    hide AvlTree.RotateRight, BackRight;
    ghost var tree := Holds(n, t) && t.right.Br? && t.right.left.Br?;
    ghost var u := if tree then t.(right := AvlTree.RotateRight(t.right)) else t;
    if tree {
      StoredHeights(n, t);
      StoredHeights(n.right, t.right);
      RotateRightKeepsIds(t.right);
      assert t.right.left.id in Ids(t.right) && allocated(Ids(t.left));
    }
    ghost var c := n.right;
    var r := RotateNodeRight(n.right, if tree then t.right else t, W);
    assert tree ==> Rep(r, u.right) && Rep(n.left, u.left);
    label Turned:
    n.right := r;
    if tree { Assembled(n, u); }
    forall q: Tree<Node> | old(allocated(q)) && Distinct(q) && Laid(n, q)
      ensures q.Br? && q.right.Br? && old(Laid(n, q.(right := BackRight(q.right))))
    {
      hide Rep, Holds;
      assert Laid(r, q.right) && Laid(n.left, q.left) && n !in Ids(q.right) && n !in Ids(q.left);
      assert old(allocated(Ids(q.right)) && allocated(Ids(q.left)));
      assert old@Turned(Laid(r, q.right)) && old@Turned(Laid(n.left, q.left));
      BackKeepsIds(q.right);
      assert old(Laid(c, BackRight(q.right)));
      assert c in Ids(q.right) && r in Ids(q.right);
      assert old(Laid(n.left, q.left));
    }
  }

  /** Left-right rotation of `n`. */
  method RotateLeftThenRight(n: Node, ghost t: Tree<Node>, ghost W: set<Node>) returns (m: Node)
    requires n.left != null && n.left.right != null && n in W && Closed(W)
    modifies n`left, n`height, n.left`left, n.left`right, n.left`height
    modifies n.left.right`left, n.left.right`right, n.left.right`height
    ensures m in W && Closed(W)
    ensures old(Holds(n, t)) && t.Br? && t.left.Br? && t.left.right.Br? ==>
              Holds(m, AvlTree.RotateRight(t.(left := AvlTree.RotateLeft(t.left))))
    ensures forall r: Tree<Node> {:trigger Laid(m, r)} :: old(allocated(r)) && Distinct(r) && Laid(m, r) ==>
              old(Laid(n, BackLeftRight(r)))
  {
    hide AvlTree.RotateRight, BackRight, BackLeft, Rep, Laid;
    TurnLeftChild(n, t, W);
    label Turned:
    m := RotateNodeRight(n, if t.Br? then t.(left := AvlTree.RotateLeft(t.left)) else t, W);
    forall r: Tree<Node> | old(allocated(r)) && Distinct(r) && Laid(m, r) ensures old(Laid(n, BackLeftRight(r))) {
      BackKeepsIds(r);
      assert old@Turned(Laid(n, BackRight(r)));
    }
  }

  /** Right-left rotation of `n`. */
  method RotateRightThenLeft(n: Node, ghost t: Tree<Node>, ghost W: set<Node>) returns (m: Node)
    requires n.right != null && n.right.left != null && n in W && Closed(W)
    modifies n`right, n`height, n.right`left, n.right`right, n.right`height
    modifies n.right.left`left, n.right.left`right, n.right.left`height
    ensures m in W && Closed(W)
    ensures old(Holds(n, t)) && t.Br? && t.right.Br? && t.right.left.Br? ==>
              Holds(m, AvlTree.RotateLeft(t.(right := AvlTree.RotateRight(t.right))))
    ensures forall r: Tree<Node> {:trigger Laid(m, r)} :: old(allocated(r)) && Distinct(r) && Laid(m, r) ==>
              old(Laid(n, BackRightLeft(r)))
  {
    hide AvlTree.RotateLeft, BackRight, BackLeft, Rep, Laid;
    TurnRightChild(n, t, W);
    label Turned:
    m := RotateNodeLeft(n, if t.Br? then t.(right := AvlTree.RotateRight(t.right)) else t, W);
    forall r: Tree<Node> | old(allocated(r)) && Distinct(r) && Laid(m, r) ensures old(Laid(n, BackRightLeft(r))) {
      BackKeepsIds(r);
      assert old@Turned(Laid(n, BackLeft(r)));
    }
  }

  /** Recomputes the height stored in `n` from its children. */
  method Measure(n: Node, ghost t: Tree<Node>)
    modifies n`height
    ensures old(Holds(n, t)) && t.Br? ==> Holds(n, Measured(t))
  {
    ghost var tree := Holds(n, t) && t.Br?;
    if tree {
      StoredHeights(n, t);
      StoredHeight(n.left, t.left);
      StoredHeight(n.right, t.right);
      assert n !in Ids(t.left) && n !in Ids(t.right);
    }
    n.height := 1 + if HeightOf(n.left) > HeightOf(n.right) then HeightOf(n.left) else HeightOf(n.right);
    if tree { Assembled(n, Measured(t)); }
  }

  /** The tree that settling came from; `turn` says which rotation was made, 0 for none. */
  function BackFrom<Id>(turn: nat, r: Tree<Id>): Tree<Id> {
    if turn == 1 then BackRight(r)
    else if turn == 2 then BackLeft(r)
    else if turn == 3 then BackLeftRight(r)
    else if turn == 4 then BackRightLeft(r)
    else r
  }

  /**
    The way back up of an insertion; `fault` reports that it would follow a null pointer. On a tree
    it settles it; on any nodes, what is a tree afterwards was one before.
   */
  method SettleNodeInsert(n: Node, base: int, ghost t: Tree<Node>, ghost W: set<Node>)
    returns (m: Node, fault: bool, ghost turn: nat)
    requires n in W && Closed(W)
    modifies W`left, W`right, W`height
    ensures m in W && Closed(W)
    ensures old(Holds(n, t) && t.Br? && Positive(t.left) && Positive(t.right)) ==>
              && fault == SettleFaults(t, base)
              && (!fault ==> Holds(m, SettleInsert(t, base)))
    ensures !fault ==> forall r: Tree<Node> {:trigger Laid(m, r)} :: old(allocated(r)) && Distinct(r) && Laid(m, r) ==>
              old(Laid(n, BackFrom(turn, r)))
  {
    hide AvlTree.RotateRight, AvlTree.RotateLeft, BackRight, BackLeft, BackLeftRight, BackRightLeft;
    ghost var tree := Holds(n, t) && t.Br? && Positive(t.left) && Positive(t.right);
    ghost var u := Measured(t);
    Measure(n, t);
    forall q: Tree<Node> {:trigger Laid(n, q)} | old(allocated(q)) && Laid(n, q) ensures old(Laid(n, q)) {
      assert old(allocated(Ids(q)));
    }
    if tree {
      assert Ids(u) == Ids(t);
      StoredHeights(n, u);
      StoredHeights(n.left, u.left);
      StoredHeights(n.right, u.right);
    }
    var balance := BalanceOf(n);
    fault, m, turn := false, n, 0;
    if (balance > 1 && n.left == null) || (balance < -1 && n.right == null) {
      fault := true;
    } else if balance > 1 && base < n.left.base {
      turn := 1;
      m := RotateNodeRight(n, u, W);
    } else if balance < -1 && base > n.right.base {
      turn := 2;
      m := RotateNodeLeft(n, u, W);
    } else if balance > 1 && base > n.left.base {
      if n.left.right == null {
        fault := true;
      } else {
        turn := 3;
        m := RotateLeftThenRight(n, u, W);
      }
    } else if balance < -1 && base < n.right.base {
      if n.right.left == null {
        fault := true;
      } else {
        turn := 4;
        m := RotateRightThenLeft(n, u, W);
      }
    }
  }

  /** The way back up of a deletion; here no rotation can meet a null pointer. */
  method SettleNodeDelete(n: Node, ghost t: Tree<Node>) returns (m: Node)
    requires Holds(n, t) && Positive(t.left) && Positive(t.right)
    modifies Ids(t)`left, Ids(t)`right, Ids(t)`height
    ensures Holds(m, SettleDelete(t))
  {
    hide AvlTree.RotateRight, AvlTree.RotateLeft;
    ghost var u := Measured(t);
    Measure(n, t);
    assert Ids(u) == Ids(t);
    StoredHeights(n, u);
    StoredHeights(n.left, u.left);
    StoredHeights(n.right, u.right);
    RepClosed(n, u);
    var balance := BalanceOf(n);
    if balance > 1 && BalanceOf(n.left) >= 0 {
      m := RotateNodeRight(n, u, Ids(u));
    } else if balance < -1 && BalanceOf(n.right) <= 0 {
      m := RotateNodeLeft(n, u, Ids(u));
    } else if balance > 1 && BalanceOf(n.left) < 0 {
      StoredHeights(n.left.right, u.left.right);
      assert u.left.right.Br?;
      m := RotateLeftThenRight(n, u, Ids(u));
    } else if balance < -1 && BalanceOf(n.right) > 0 {
      StoredHeights(n.right.left, u.right.left);
      assert u.right.left.Br?;
      m := RotateRightThenLeft(n, u, Ids(u));
    } else {
      m := n;
    }
  }

  /** Hangs the grown left child below `n` and settles. */
  method AttachLeft(n: Node, l: Node?, base: int, ghost u: Tree<Node>) returns (m: Node, fault: bool)
    requires u.Br? && n == u.id && n.base == u.base && n.size == u.size && n.height == u.height
    requires Rep(l, u.left) && Rep(n.right, u.right) && Distinct(u) && Positive(u.left) && Positive(u.right)
    modifies Ids(u)`left, Ids(u)`right, Ids(u)`height
    ensures fault == SettleFaults(u, base)
    ensures !fault ==> Holds(m, SettleInsert(u, base))
  {
    n.left := l;
    Assembled(n, u);
    RepClosed(n, u);
    ghost var turn;
    m, fault, turn := SettleNodeInsert(n, base, u, Ids(u));
  }

  /** Hangs the grown right child below `n` and settles. */
  method AttachRight(n: Node, r: Node?, base: int, ghost u: Tree<Node>) returns (m: Node, fault: bool)
    requires u.Br? && n == u.id && n.base == u.base && n.size == u.size && n.height == u.height
    requires Rep(n.left, u.left) && Rep(r, u.right) && Distinct(u) && Positive(u.left) && Positive(u.right)
    modifies Ids(u)`left, Ids(u)`right, Ids(u)`height
    ensures fault == SettleFaults(u, base)
    ensures !fault ==> Holds(m, SettleInsert(u, base))
  {
    n.right := r;
    Assembled(n, u);
    RepClosed(n, u);
    ghost var turn;
    m, fault, turn := SettleNodeInsert(n, base, u, Ids(u));
  }

  /**
    Insertion. Without a fault the nodes hold exactly `Insert`; a fault happens exactly when
    `InsertFaults` says so. No existing node changes its block.
   */
  method AvlInsert(n: Node?, base: int, size: int, ghost t: Tree<Node>)
    returns (m: Node?, fault: bool, ghost nu: Node?)
    requires Holds(n, t) && Sound(t)
    modifies Ids(t)`left, Ids(t)`right, Ids(t)`height
    ensures size == 0 ==> m == n && !fault && Holds(m, t)
    ensures size != 0 ==>
      && nu != null
      && (base !in Blocks(t) ==> fresh(nu))
      && fault == InsertFaults<Node>(t, base, size, nu)
      && (!fault ==> Holds(m, Insert<Node>(t, base, size, nu)))
      && (base !in Blocks(t) ==> nu.base == base && nu.size == size)
    decreases t
  {
    hide SettleInsert, SettleFaults, RealHeight, Blocks;
    m, fault, nu := n, false, null;
    StoredHeights(n, t);
    if size == 0 {
      return;
    }
    if n == null {
      m := new Node(base, size);
      nu := m;
      return;
    }
    KeySide(t, base);
    if base < n.base {
      assert allocated(Ids(t.left)) && allocated(Ids(t.right));
      var l;
      l, fault, nu := AvlInsert(n.left, base, size, t.left);
      if fault { return; }
      ghost var u := t.(left := Insert<Node>(t.left, base, size, nu));
      InsertGraftsLeft(t, base, size, nu);
      m, fault := AttachLeft(n, l, base, u);
    } else if base > n.base {
      assert allocated(Ids(t.left)) && allocated(Ids(t.right));
      var r;
      r, fault, nu := AvlInsert(n.right, base, size, t.right);
      if fault { return; }
      ghost var u := t.(right := Insert<Node>(t.right, base, size, nu));
      InsertGraftsRight(t, base, size, nu);
      m, fault := AttachRight(n, r, base, u);
    } else {
      nu := n;
    }
  }

  lemma {:induction false} InsertGraftsLeft<Id>(t: Tree<Id>, base: int, size: int, nu: Id)
    requires t.Br? && Sound(t) && Distinct(t) && base < t.base
    requires nu !in Ids(t) || base in Blocks(t)
    ensures var l := Insert(t.left, base, size, nu);
            && Distinct(t.(left := l)) && t.id !in Ids(l) && Positive(l)
            && Ids(l) <= Ids(t.left) + {nu} && (base in Blocks(t) ==> Ids(l) == Ids(t.left))
  {
    KeySide(t, base);
    InsertIds(t.left, base, size, nu);
    InsertRefinesMap(t.left, base, size, nu);
  }

  lemma {:induction false} InsertGraftsRight<Id>(t: Tree<Id>, base: int, size: int, nu: Id)
    requires t.Br? && Sound(t) && Distinct(t) && base > t.base
    requires nu !in Ids(t) || base in Blocks(t)
    ensures var r := Insert(t.right, base, size, nu);
            && Distinct(t.(right := r)) && t.id !in Ids(r) && Positive(r)
            && Ids(r) <= Ids(t.right) + {nu} && (base in Blocks(t) ==> Ids(r) == Ids(t.right))
  {
    KeySide(t, base);
    InsertIds(t.right, base, size, nu);
    InsertRefinesMap(t.right, base, size, nu);
  }

  /** Walks down to the node with the smallest base. */
  method FindMinBase(n: Node, ghost t: Tree<Node>) returns (m: Node)
    requires Rep(n, t)
    ensures m == Leftmost(t).id && m in Ids(t)
    ensures m.base == Leftmost(t).base && m.size == Leftmost(t).size && m.left == null
  {
    m := n;
    ghost var c := t;
    while m.left != null
      invariant Rep(m, c) && Leftmost(c) == Leftmost(t) && Ids(c) <= Ids(t)
      decreases c
    {
      m := m.left;
      c := c.left;
    }
  }

  /** A node of the tree holds one of its blocks. */
  lemma {:induction false} NodeHoldsBlock(n: Node?, t: Tree<Node>, x: Node)
    requires Rep(n, t) && Ordered(t) && x in Ids(t)
    ensures x.base in Blocks(t) && Blocks(t)[x.base] == x.size
    decreases t
  {
    KeySide(t, x.base);
    if x in Ids(t.left) {
      NodeHoldsBlock(n.left, t.left, x);
    } else if x in Ids(t.right) {
      NodeHoldsBlock(n.right, t.right, x);
    }
  }

  /** The node with the least base has no left child. */
  lemma {:induction false} LeastHasNoLeft(n: Node?, t: Tree<Node>, x: Node)
    requires Rep(n, t) && Ordered(t) && x in Ids(t) && x.base == Leftmost(t).base
    ensures x.left == null
    decreases t
  {
    if x in Ids(t.right) {
      NodeHoldsBlock(n.right, t.right, x);
      LeftmostIsLeast(t);
      KeySide(t, x.base);
    } else if t.left.Br? {
      LeftmostIsLeast(t.left);
      if x in Ids(t.left) {
        LeastHasNoLeft(n.left, t.left, x);
      }
    }
  }

  lemma {:induction false} OnlyLeast(n: Node?, t: Tree<Node>)
    requires Rep(n, t) && Ordered(t) && t.Br?
    ensures forall x :: x in Ids(t) && x.base == Leftmost(t).base ==> x.left == null
  {
    forall x | x in Ids(t) && x.base == Leftmost(t).base ensures x.left == null {
      LeastHasNoLeft(n, t, x);
    }
  }

  /** Hangs the shrunken left child below `n` and settles. */
  method DetachLeft(n: Node, l: Node?, ghost u: Tree<Node>) returns (m: Node)
    requires u.Br? && n == u.id && n.base == u.base && n.size == u.size && n.height == u.height
    requires Rep(l, u.left) && Rep(n.right, u.right) && Distinct(u) && Positive(u.left) && Positive(u.right)
    modifies Ids(u)`left, Ids(u)`right, Ids(u)`height
    ensures Holds(m, SettleDelete(u))
  {
    n.left := l;
    Assembled(n, u);
    m := SettleNodeDelete(n, u);
  }

  /** Hangs the shrunken right child below `n` and settles. */
  method DetachRight(n: Node, r: Node?, ghost u: Tree<Node>) returns (m: Node)
    requires u.Br? && n == u.id && n.base == u.base && n.size == u.size && n.height == u.height
    requires Rep(n.left, u.left) && Rep(r, u.right) && Distinct(u) && Positive(u.left) && Positive(u.right)
    modifies Ids(u)`left, Ids(u)`right, Ids(u)`height
    ensures Holds(m, SettleDelete(u))
  {
    n.right := r;
    Assembled(n, u);
    m := SettleNodeDelete(n, u);
  }

  lemma {:induction false} DeleteGrafts<Id>(t: Tree<Id>, base: int)
    requires t.Br? && Sound(t) && Distinct(t)
    ensures var l, r := Delete(t.left, base), Delete(t.right, base);
            && Positive(l) && Positive(r)
            && Ids(l) <= Ids(t.left) && Ids(r) <= Ids(t.right)
            && Distinct(t.(left := l)) && Distinct(t.(right := r))
            && Sound(t.left) && Sound(t.right)
  {
    DeleteIds(t.left, base);
    DeleteIds(t.right, base);
    DeleteRefinesMap(t.left, base);
    DeleteRefinesMap(t.right, base);
  }

  /** A node that a shrunken left child lost is the only kind settling loses. */
  lemma {:induction false} UnlinkedLeft<Id>(t: Tree<Id>, l: Tree<Id>)
    requires t.Br? && Distinct(t) && Ids(l) <= Ids(t.left)
    ensures forall x :: x in Ids(t) && x !in Ids(SettleDelete(t.(left := l))) ==>
              x in Ids(t.left) && x !in Ids(l) && x != t.id
    ensures t.id in Ids(SettleDelete(t.(left := l)))
  {
    hide SettleDelete, SettleInsert;
    SettlesKeepIds(t.(left := l), 0);
  }

  lemma {:induction false} UnlinkedRight<Id>(t: Tree<Id>, u: Tree<Id>)
    requires t.Br? && Distinct(t) && u.Br? && u.id == t.id && u.left == t.left && Ids(u.right) <= Ids(t.right)
    ensures forall x :: x in Ids(t) && x !in Ids(SettleDelete(u)) ==>
              x in Ids(t.right) && x !in Ids(u.right) && x != t.id
    ensures t.id in Ids(SettleDelete(u))
  {
    hide SettleDelete, SettleInsert;
    SettlesKeepIds(u, 0);
  }

  /**
    Deletion. The nodes hold exactly `Delete` afterwards, and only a node with two children that
    held `base` has its own block replaced, so a pointer kept to any other node, even to the one
    unlinked, still reads the block it held; an unlinked node keeps its block and its links.
   */
  method AvlDelete(n: Node?, base: int, ghost t: Tree<Node>) returns (m: Node?)
    requires Holds(n, t) && Sound(t)
    modifies Ids(t)
    ensures Holds(m, Delete(t, base))
    ensures forall x: Node :: old(allocated(x)) && x in Ids(t) && (old(x.base) != base || old(x.left) == null) ==>
              x.base == old(x.base) && x.size == old(x.size)
    ensures forall x: Node :: old(allocated(x)) && x in Ids(t) && x !in Ids(Delete(t, base)) ==>
              x.left == old(x.left) && x.right == old(x.right) && x.base == old(x.base) && x.size == old(x.size)
    decreases t, 1
  {
    hide SettleDelete, RealHeight, Blocks, Leftmost;
    StoredHeights(n, t);
    if n == null {
      return null;
    }
    if base < n.base {
      DeleteGrafts(t, base);
      assert allocated(Ids(t.left)) && allocated(Ids(t.right));
      var l := AvlDelete(n.left, base, t.left);
      UnlinkedLeft(t, Delete(t.left, base));
      m := DetachLeft(n, l, t.(left := Delete(t.left, base)));
    } else if base > n.base {
      DeleteGrafts(t, base);
      assert allocated(Ids(t.left)) && allocated(Ids(t.right));
      var r := AvlDelete(n.right, base, t.right);
      UnlinkedRight(t, t.(right := Delete(t.right, base)));
      m := DetachRight(n, r, t.(right := Delete(t.right, base)));
    } else if n.left == null {
      m := n.right;
      StoredHeights(n.left, t.left);
    } else if n.right == null {
      m := n.left;
      StoredHeights(n.right, t.right);
    } else {
      m := DeleteHere(n, t);
    }
  }

  /** The two-child case of a deletion. */
  method DeleteHere(n: Node, ghost t: Tree<Node>) returns (m: Node?)
    requires Holds(n, t) && Sound(t) && t.left.Br? && t.right.Br?
    modifies Ids(t)
    ensures Holds(m, Delete(t, t.base))
    ensures forall x: Node :: old(allocated(x)) && x in Ids(t) && x != n ==>
              x.base == old(x.base) && x.size == old(x.size)
    ensures forall x: Node :: old(allocated(x)) && x in Ids(t) && x !in Ids(Delete(t, t.base)) ==>
              x.left == old(x.left) && x.right == old(x.right) && x.base == old(x.base) && x.size == old(x.size)
    decreases t, 0
  {
    hide NotAbove, RealHeight, SettleDelete, Blocks, Leftmost, Ordered, Rep, Positive;
    StoredHeights(n, t);
    RepRoot(n, t);
    ghost var low := Leftmost(t.right);
    ghost var u := t.(base := low.base, size := low.size, right := Delete(t.right, low.base));
    DeleteGrafts(t, low.base);
    assert allocated(Ids(t.left)) && allocated(Ids(t.right));
    var temp := FindMinBase(n.right, t.right);
    OnlyLeast(n.right, t.right);
    n.base := temp.base;
    n.size := temp.size;
    assert Rep(n.left, t.left) && Rep(n.right, t.right);
    var r := AvlDelete(n.right, temp.base, t.right);
    UnlinkedRight(t, u);
    m := DetachRight(n, r, u);
  }
}
