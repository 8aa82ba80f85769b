/**
  What the rotations are for. Above children whose stored heights are the real ones, every settling step
  brings the real heights of a node's children back to within one of each other, and an insertion into a
  balanced tree with real stored heights leaves a balanced tree.
 */
module AvlBalance {
  import opened AvlTree
  import opened FaultPath

  /** Every stored height is the real one. */
  ghost predicate Exact<Id>(t: Tree<Id>) {
    t.Br? ==> t.height == RealHeight(t) && Exact(t.left) && Exact(t.right)
  }

  /** No node's children differ by more than one in real height. */
  ghost predicate Balanced<Id>(t: Tree<Id>) {
    t.Br? ==> -1 <= RealHeight(t.left) - RealHeight(t.right) <= 1 && Balanced(t.left) && Balanced(t.right)
  }

  /** A node and its children store their real heights. */
  ghost predicate TopExact<Id>(t: Tree<Id>) {
    H(t) == RealHeight(t) && (t.Br? ==> H(t.left) == RealHeight(t.left) && H(t.right) == RealHeight(t.right))
  }

  /** A tree that has just grown by the block at `base`: it leans towards it, or is its only block. */
  ghost predicate Grown<Id>(t: Tree<Id>, base: int) {
    && t.Br? && TopExact(t)
    && if base == t.base then t.left.Nil? && t.right.Nil?
       else
         && Toward(t, base).Br? && TopExact(Toward(t, base))
         && RealHeight(Toward(t, base)) == RealHeight(Away(t, base)) + 1
  }

  // ---------------------------------------------------------------- one rotation

  lemma {:induction false} TurnRightBalanced<Id>(n: Tree<Id>)
    requires n.Br? && n.left.Br? && TopExact(n.left) && H(n.right) == RealHeight(n.right)
    requires Balanced(n.left) && Balanced(n.right) && RealHeight(n.left) == RealHeight(n.right) + 2
    requires RealHeight(n.left.left) == RealHeight(n.right) + 1
    ensures var u := RotateRight(n);
            && Balanced(u) && u.Br? && H(u) <= RealHeight(u)
            && RealHeight(n.left) <= RealHeight(u) <= RealHeight(n.left) + 1
            && (RealHeight(n.left.right) == RealHeight(n.right) ==>
                  H(u) == RealHeight(u) == RealHeight(n.left))
  {
    var x := n.left;
    var y := Measured(n.(left := x.right));
    assert RotateRight(n).right == y && RotateRight(n).left == x.left;
    assert RealHeight(y) == 1 + Max(RealHeight(x.right), RealHeight(n.right)) && Balanced(y);
  }

  lemma {:induction false} TurnLeftBalanced<Id>(n: Tree<Id>)
    requires n.Br? && n.right.Br? && TopExact(n.right) && H(n.left) == RealHeight(n.left)
    requires Balanced(n.left) && Balanced(n.right) && RealHeight(n.right) == RealHeight(n.left) + 2
    requires RealHeight(n.right.right) == RealHeight(n.left) + 1
    ensures var u := RotateLeft(n);
            && Balanced(u) && u.Br? && H(u) == RealHeight(u)
            && RealHeight(n.right) <= RealHeight(u) <= RealHeight(n.right) + 1
            && (RealHeight(n.right.left) == RealHeight(n.left) ==> RealHeight(u) == RealHeight(n.right))
  {
    var y, x := n.right, RotateLeft(n).left;
    assert RotateLeft(n).right == y.right && x.left == n.left && x.right == y.left;
    assert RealHeight(x) == 1 + Max(RealHeight(n.left), RealHeight(y.left)) && Balanced(x);
  }

  lemma {:induction false} DoubleRightBalanced<Id>(n: Tree<Id>)
    requires n.Br? && n.left.Br? && n.left.right.Br? && TopExact(n.left) && TopExact(n.left.right)
    requires H(n.right) == RealHeight(n.right) && Balanced(n.left) && Balanced(n.right)
    requires RealHeight(n.left) == RealHeight(n.right) + 2 && RealHeight(n.left.left) == RealHeight(n.right)
    ensures var u := RotateRight(n.(left := RotateLeft(n.left)));
            Balanced(u) && u.Br? && H(u) == RealHeight(u) == RealHeight(n.left)
  {
    var l, x := n.left, n.left.right;
    var m := RotateLeft(l);
    var a, y := m.left, Measured(n.(left := x.right));
    assert m.right == x.right && a.left == l.left && a.right == x.left && m.id == x.id;
    assert RealHeight(a) == 1 + Max(RealHeight(l.left), RealHeight(x.left)) && Balanced(a);
    var u := RotateRight(n.(left := m));
    assert u.left == a && u.right == y;
    assert RealHeight(y) == 1 + Max(RealHeight(x.right), RealHeight(n.right)) && Balanced(y);
  }

  lemma {:induction false} DoubleLeftBalanced<Id>(n: Tree<Id>)
    requires n.Br? && n.right.Br? && n.right.left.Br? && TopExact(n.right) && TopExact(n.right.left)
    requires H(n.left) == RealHeight(n.left) && Balanced(n.left) && Balanced(n.right)
    requires RealHeight(n.right) == RealHeight(n.left) + 2 && RealHeight(n.right.right) == RealHeight(n.left)
    ensures var u := RotateLeft(n.(right := RotateRight(n.right)));
            Balanced(u) && u.Br? && H(u) == RealHeight(u) == RealHeight(n.right)
  {
    var r, x := n.right, n.right.left;
    var m := RotateRight(r);
    var b, y := m.right, RotateLeft(n.(right := m)).left;
    assert m.left == x.left && b.left == x.right && b.right == r.right;
    assert RealHeight(b) == 1 + Max(RealHeight(x.right), RealHeight(r.right)) && Balanced(b);
    var u := RotateLeft(n.(right := m));
    assert u.right == b && y.left == n.left && y.right == x.left;
    assert RealHeight(y) == 1 + Max(RealHeight(n.left), RealHeight(x.left)) && Balanced(y);
  }

  // ---------------------------------------------------------------- insertion

  /** One step back up of an insertion that came from the left. */
  lemma {:induction false} SettlesFromLeft<Id>(t: Tree<Id>, c: Tree<Id>, base: int)
    requires t.Br? && base < t.base && Exact(t) && Balanced(t)
    requires Balanced(c) && H(c) == RealHeight(c) && RealHeight(t.left) <= RealHeight(c) <= RealHeight(t.left) + 1
    requires RealHeight(c) > RealHeight(t.left) ==> Grown(c, base)
    ensures var n := t.(left := c);
            var u := SettleInsert(n, base);
            && !SettleFaults(n, base) && Balanced(u) && H(u) == RealHeight(u)
            && RealHeight(t) <= RealHeight(u) <= RealHeight(t) + 1
            && (RealHeight(u) > RealHeight(t) ==> Grown(u, base))
  {
    hide RotateRight, RotateLeft;
    var n := Measured(t.(left := c));
    assert RealHeight(n) == 1 + Max(RealHeight(c), RealHeight(t.right)) == n.height;
    if RealHeight(c) == RealHeight(t.right) + 2 {
      if base < c.base { TurnRightBalanced(n); } else { DoubleRightBalanced(n); }
    }
  }

  /** One step back up of an insertion that came from the right. */
  lemma {:induction false} SettlesFromRight<Id>(t: Tree<Id>, c: Tree<Id>, base: int)
    requires t.Br? && base > t.base && Exact(t) && Balanced(t)
    requires Balanced(c) && H(c) == RealHeight(c) && RealHeight(t.right) <= RealHeight(c) <= RealHeight(t.right) + 1
    requires RealHeight(c) > RealHeight(t.right) ==> Grown(c, base)
    ensures var n := t.(right := c);
            var u := SettleInsert(n, base);
            && !SettleFaults(n, base) && Balanced(u) && H(u) == RealHeight(u)
            && RealHeight(t) <= RealHeight(u) <= RealHeight(t) + 1
            && (RealHeight(u) > RealHeight(t) ==> Grown(u, base))
  {
    hide RotateRight, RotateLeft;
    var n := Measured(t.(right := c));
    assert RealHeight(n) == 1 + Max(RealHeight(t.left), RealHeight(c)) == n.height;
    if RealHeight(c) == RealHeight(t.left) + 2 {
      if base > c.base { TurnLeftBalanced(n); } else { DoubleLeftBalanced(n); }
    }
  }

  /**
    Into a balanced tree whose stored heights are the real ones, every insertion completes and leaves a
    balanced tree, at most one higher, whose root stores its real height.
   */
  lemma {:induction false} InsertBalanced<Id>(t: Tree<Id>, base: int, size: int, nu: Id)
    requires Exact(t) && Balanced(t)
    ensures !InsertFaults(t, base, size, nu)
    ensures var u := Insert(t, base, size, nu);
            && Balanced(u) && H(u) == RealHeight(u) && RealHeight(t) <= RealHeight(u) <= RealHeight(t) + 1
            && (RealHeight(u) > RealHeight(t) ==> Grown(u, base))
    decreases t
  {
    hide SettleInsert, SettleFaults;
    if size != 0 && t.Br? {
      if base < t.base {
        InsertBalanced(t.left, base, size, nu);
        SettlesFromLeft(t, Insert(t.left, base, size, nu), base);
      } else if base > t.base {
        InsertBalanced(t.right, base, size, nu);
        SettlesFromRight(t, Insert(t.right, base, size, nu), base);
      }
    }
  }

  // ---------------------------------------------------------------- deletion

  lemma ExactTop<Id>(t: Tree<Id>)
    requires Exact(t)
    ensures TopExact(t) && (t.Br? ==> Exact(t.left) && Exact(t.right))
  {
  }

  /** Too high on the left: the higher side of the left child decides between one turn and two. */
  lemma {:induction false} LeansLeft<Id>(t: Tree<Id>)
    requires t.Br? && Exact(t.left) && Exact(t.right) && Balanced(t.left) && Balanced(t.right)
    requires RealHeight(t.left) == RealHeight(t.right) + 2
    ensures var u := SettleDelete(t);
            Balanced(u) && H(u) <= RealHeight(u) && RealHeight(t) - 1 <= RealHeight(u) <= RealHeight(t)
  {
    hide RotateRight, RotateLeft, Exact;
    var n, x := Measured(t), t.left;
    ExactTop(x);
    ExactTop(t.right);
    ExactTop(x.right);
    assert n.height == RealHeight(n) == RealHeight(t) == RealHeight(x) + 1;
    if H(x.left) >= H(x.right) { TurnRightBalanced(n); } else { DoubleRightBalanced(n); }
  }

  lemma {:induction false} LeansRight<Id>(t: Tree<Id>)
    requires t.Br? && Exact(t.left) && Exact(t.right) && Balanced(t.left) && Balanced(t.right)
    requires RealHeight(t.right) == RealHeight(t.left) + 2
    ensures var u := SettleDelete(t);
            Balanced(u) && H(u) <= RealHeight(u) && RealHeight(t) - 1 <= RealHeight(u) <= RealHeight(t)
  {
    hide RotateRight, RotateLeft, Exact;
    var n, y := Measured(t), t.right;
    ExactTop(y);
    ExactTop(t.left);
    ExactTop(y.left);
    assert n.height == RealHeight(n) == RealHeight(t) == RealHeight(y) + 1;
    if H(y.right) >= H(y.left) { TurnLeftBalanced(n); } else { DoubleLeftBalanced(n); }
  }

  /**
    One step back up of a deletion: over balanced children with real stored heights that differ by two at
    most, it leaves a balanced tree of the same height or one less.
   */
  lemma {:induction false} DeleteStepBalanced<Id>(t: Tree<Id>)
    requires t.Br? && Exact(t.left) && Exact(t.right) && Balanced(t.left) && Balanced(t.right)
    requires -2 <= RealHeight(t.left) - RealHeight(t.right) <= 2
    ensures var u := SettleDelete(t);
            Balanced(u) && H(u) <= RealHeight(u) && RealHeight(t) - 1 <= RealHeight(u) <= RealHeight(t)
  {
    if RealHeight(t.left) == RealHeight(t.right) + 2 {
      LeansLeft(t);
    } else if RealHeight(t.right) == RealHeight(t.left) + 2 {
      LeansRight(t);
    } else {
      hide RotateRight, RotateLeft, Exact;
      ExactTop(t.left);
      ExactTop(t.right);
    }
  }

  /** All first addresses lie between two bounds, on the side of each node they belong on. */
  predicate Between<Id>(t: Tree<Id>, low: int, high: int) {
    t.Br? ==> low < t.base < high && Between(t.left, low, t.base) && Between(t.right, t.base, high)
  }

  lemma {:induction false} BetweenOrdered<Id>(t: Tree<Id>, low: int, high: int)
    requires Between(t, low, high)
    ensures Ordered(t) && forall k :: k in Blocks(t) ==> low < k < high
  {
    if t.Br? {
      BetweenOrdered(t.left, low, t.base);
      BetweenOrdered(t.right, t.base, high);
    }
  }

  function Leaf(base: int): Tree<()> {
    Br((), Nil, base, 1, 1, Nil)
  }

  /** Where a deletion turns twice to the left, what hung left of the node hangs beside the inmost tree. */
  lemma {:induction false} TurnsTwice<Id>(t: Tree<Id>)
    requires t.Br? && H(t.left) - H(t.right) < -1 && Balance(t.right) > 0 && t.right.left.Br?
    ensures var u := SettleDelete(t);
            u.Br? && u.left.Br? && u.left.left == t.left && u.left.right == t.right.left.left
  {
  }

  /**
    A deletion from a balanced tree with real stored heights need not leave a balanced one: taking the block
    at 30 away leaves one side of a node two higher than the other.
   */
  lemma {:induction false} DeletionCanUnbalance(t: Tree<()>, l: Tree<()>, r: Tree<()>)
    requires l == Br((), Br((), Leaf(5), 10, 1, 2, Leaf(15)), 20, 1, 3, Leaf(30))
    requires r == Br((), Br((), Leaf(45), 50, 1, 3, Br((), Nil, 60, 1, 2, Leaf(65))), 70, 1, 4,
                     Br((), Nil, 80, 1, 2, Leaf(90)))
    requires t == Br((), l, 40, 1, 5, r)
    ensures Ordered(t) && Exact(t) && Balanced(t) && !Balanced(Delete(t, 30))
  {
    HeightsCanBeTooLow(l);
    BetweenOrdered(t, 0, 100);
    Heights(l, r);
    hide Ordered, Between, RotateRight, RotateLeft;
    var n := t.(left := Delete(l, 30));
    assert Delete(t, 30) == SettleDelete(n);
    TurnsTwice(n);
    assert RealHeight(Leaf(45)) == 1;
  }

  lemma Heights(l: Tree<()>, r: Tree<()>)
    requires l == Br((), Br((), Leaf(5), 10, 1, 2, Leaf(15)), 20, 1, 3, Leaf(30))
    requires r == Br((), Br((), Leaf(45), 50, 1, 3, Br((), Nil, 60, 1, 2, Leaf(65))), 70, 1, 4,
                     Br((), Nil, 80, 1, 2, Leaf(90)))
    ensures Exact(l) && Balanced(l) && RealHeight(l) == 3 && Exact(r) && Balanced(r) && RealHeight(r) == 4
  {
    assert RealHeight(l.left) == 2 && Exact(l.left) && Balanced(l.left);
    assert RealHeight(r.left.right) == 2 && Exact(r.left.right) && Balanced(r.left.right);
    assert RealHeight(r.left) == 3 && Exact(r.left) && Balanced(r.left);
    assert RealHeight(r.right) == 2 && Exact(r.right) && Balanced(r.right);
  }
}
