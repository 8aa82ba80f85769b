/**
  Exactly when an insertion follows a missing pointer, told by the nodes on its search path: some
  node leans away from the new block by two, and the child it leans to has nothing on the inner
  side to rotate up.
 */
module FaultPath {
  import opened AvlTree

  /** The child of `s` on the other side of the search path. */
  function Away<Id>(s: Tree<Id>, base: int): Tree<Id>
    requires s.Br?
  {
    if base < s.base then s.right else s.left
  }

  /** The child of `c` that faces the search path of `base`. */
  function Inner<Id>(c: Tree<Id>, base: int): Tree<Id>
    requires c.Br?
  {
    if base < c.base then c.left else c.right
  }

  /** `s` has a child off the path whose inner side is empty. */
  predicate Hollow<Id>(s: Tree<Id>, base: int) {
    s.Br? && base != s.base && Away(s, base).Br? && Inner(Away(s, base), base).Nil?
  }

  /** The guard of the failing rotation at one node of the path. */
  predicate Tips<Id>(s: Tree<Id>, base: int, size: int, nu: Id) {
    Hollow(s, base) && H(Away(s, base)) >= H(Insert(Toward(s, base), base, size, nu)) + 2
  }

  /** Some node on the search path tips away from the new block. */
  predicate PathTips<Id>(t: Tree<Id>, base: int, size: int, nu: Id) {
    t.Br? && base != t.base && (Tips(t, base, size, nu) || PathTips(Toward(t, base), base, size, nu))
  }

  // ---------------------------------------------------------------- the exact condition

  /** Where the new block went, its own side always has something to rotate up. */
  lemma {:induction false} InsertedSide<Id>(t: Tree<Id>, base: int, size: int, nu: Id)
    requires Sound(t) && size != 0
    ensures var u := Insert(t, base, size, nu);
            && u.Br? && Sound(u) && H(u) >= 1
            && (base > u.base ==> u.right.Br?) && (base < u.base ==> u.left.Br?)
  {
    hide SettleInsert;
    InsertRefinesMap(t, base, size, nu);
    var u := Insert(t, base, size, nu);
    assert base in Blocks(u);
    KeySide(u, base);
  }

  /** One node: of the two failing rotations only the one away from the new block can occur. */
  lemma {:induction false} SettleTips<Id>(t: Tree<Id>, base: int, size: int, nu: Id)
    requires t.Br? && Sound(t) && size != 0 && base != t.base
    ensures var c := Insert(Toward(t, base), base, size, nu);
            SettleFaults(if base < t.base then t.(left := c) else t.(right := c), base) <==> Tips(t, base, size, nu)
  {
    hide Insert;
    InsertedSide(Toward(t, base), base, size, nu);
    var away := Away(t, base);
    if away.Br? {
      KeySide(away, away.base);
      assert away.base in Blocks(away);
    }
  }

  /** The exact condition: an insertion faults if and only if some node on its path tips away from it. */
  lemma {:induction false} FaultsExactly<Id>(t: Tree<Id>, base: int, size: int, nu: Id)
    requires Sound(t) && size != 0
    ensures InsertFaults(t, base, size, nu) <==> exists s :: OnPath(t, base, s) && Tips(s, base, size, nu)
    ensures InsertFaults(t, base, size, nu) <==> PathTips(t, base, size, nu)
    decreases t
  {
    hide Insert, Tips, SettleFaults;
    if t.Br? && base != t.base {
      SettleTips(t, base, size, nu);
      FaultsExactly(Toward(t, base), base, size, nu);
      if Tips(t, base, size, nu) { assert OnPath(t, base, t); }
      if exists s :: OnPath(Toward(t, base), base, s) && Tips(s, base, size, nu) {
        var s :| OnPath(Toward(t, base), base, s) && Tips(s, base, size, nu);
        assert OnPath(t, base, s);
      }
    } else {
      NoTip(t, base, size, nu);
    }
  }

  lemma NoTip<Id>(t: Tree<Id>, base: int, size: int, nu: Id)
    requires t.Nil? || base == t.base
    ensures !Tips(t, base, size, nu)
  {
  }

  // ---------------------------------------------------------------- what can be seen without inserting

  /** No node on the path has a hollow child that claims height 3 or more. */
  predicate Sturdy<Id>(t: Tree<Id>, base: int) {
    t.Br? && base != t.base ==>
      !(Hollow(t, base) && H(Away(t, base)) >= 3) && Sturdy(Toward(t, base), base)
  }

  /** Reading the path before the call is enough to rule a fault out. */
  lemma {:induction false} SturdyNeverFaults<Id>(t: Tree<Id>, base: int, size: int, nu: Id)
    requires Sound(t) && Sturdy(t, base)
    ensures !InsertFaults(t, base, size, nu)
    decreases t
  {
    hide Insert, SettleFaults;
    if size != 0 && t.Br? && base != t.base {
      SettleTips(t, base, size, nu);
      InsertedSide(Toward(t, base), base, size, nu);
      SturdyNeverFaults(Toward(t, base), base, size, nu);
    }
  }

  /** A tree has at least as many blocks as its height. */
  lemma {:induction false} HeightNeedsBlocks<Id>(t: Tree<Id>)
    requires Ordered(t)
    ensures |Blocks(t)| >= RealHeight(t)
    ensures t.Br? ==> |Blocks(t)| > |Blocks(t.left)| && |Blocks(t)| > |Blocks(t.right)|
    decreases t
  {
    if t.Br? {
      HeightNeedsBlocks(t.left);
      HeightNeedsBlocks(t.right);
      KeySide(t, t.base);
      SmallerKeys(Blocks(t.left), Blocks(t), t.base);
      SmallerKeys(Blocks(t.right), Blocks(t), t.base);
    }
  }

  lemma {:induction false} SmallerKeys(a: map<int, int>, b: map<int, int>, k: int)
    requires (forall x :: x in a ==> x in b) && k in b && k !in a
    ensures |a| < |b|
  {
    var rest := b.Keys - {k};
    forall x | x in a.Keys ensures x in rest {
      assert x in a;
    }
    assert rest == a.Keys + (rest - a.Keys);
  }

  lemma {:induction false} FewIsSturdy<Id>(t: Tree<Id>, base: int)
    requires Sound(t) && NotAbove(t) && |Blocks(t)| <= 3
    ensures Sturdy(t, base)
    decreases t
  {
    if t.Br? && base != t.base {
      HeightNeedsBlocks(t);
      HeightNeedsBlocks(Away(t, base));
      FewIsSturdy(Toward(t, base), base);
    }
  }

  /** A tree of at most three blocks never faults, however far its stored heights are below the real ones. */
  lemma {:induction false} FewBlocksNeverFault<Id>(t: Tree<Id>, base: int, size: int, nu: Id)
    requires Sound(t) && NotAbove(t) && |Blocks(t)| <= 3
    ensures !InsertFaults(t, base, size, nu)
  {
    FewIsSturdy(t, base);
    SturdyNeverFaults(t, base, size, nu);
  }

  /** A right-leaning list, one block at a time. */
  lemma {:induction false} OneMoreAbove(t: Tree<()>)
    requires t.Br? && t.left.Nil? && Sound(t.right) && NotAbove(t.right)
    requires (forall k :: k in Blocks(t.right) ==> t.base < k) && 1 <= t.height <= 1 + RealHeight(t.right)
    ensures Sound(t) && NotAbove(t) && RealHeight(t) == 1 + RealHeight(t.right)
    ensures Blocks(t).Keys == Blocks(t.right).Keys + {t.base}
  {
    assert Blocks(t).Keys == Blocks(t.left).Keys + {t.base} + Blocks(t.right).Keys;
  }

  /** The bound is tight: four blocks are enough for a fault. */
  lemma {:induction false} FourBlocksCanFault(t: Tree<()>)
    requires t == Br((), Nil, 20, 1, 4, Br((), Nil, 30, 1, 3, Br((), Nil, 40, 1, 2, Br((), Nil, 50, 1, 1, Nil))))
    ensures Sound(t) && NotAbove(t) && Blocks(t).Keys == {20, 30, 40, 50} && InsertFaults(t, 10, 1, ())
  {
    var a, b, c := t.right.right.right, t.right.right, t.right;
    OneMoreAbove(a);
    OneMoreAbove(b);
    OneMoreAbove(c);
    OneMoreAbove(t);
    FaultsExactly(t, 10, 1, ());
    assert OnPath(t, 10, t) && Tips(t, 10, 1, ());
  }

  /** Stored heights above the real ones, which no run produces, would fault on two blocks. */
  lemma {:induction false} HighClaimsFault(t: Tree<()>)
    requires t == Br((), Nil, 20, 1, 4, Br((), Nil, 30, 1, 3, Nil))
    ensures Sound(t) && !NotAbove(t) && InsertFaults(t, 10, 1, ())
  {
    assert Blocks(t.right) == map[30 := 1];
    assert RealHeight(t.right) == 1;
    FaultsExactly(t, 10, 1, ());
    assert Tips(t, 10, 1, ());
  }
}
