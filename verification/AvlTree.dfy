/**
  The shape of the kernel heap's search tree as a value.

  A node of the tree is a free block: its first address, its size in bytes and the height the
  allocator stored in it. `Id` stands for the storage of the node, so that the pointer-level
  module can say which object ends up where.

  The functions follow the allocator's own code, including the two height comparisons that look
  at the wrong child, so nothing here speaks of strict AVL balance; `AvlBalance` says where it holds.
 */
module AvlTree {

  datatype Tree<Id> =
    | Nil
    | Br(id: Id, left: Tree<Id>, base: int, size: int, height: int, right: Tree<Id>)

  /** The stored height; an absent node counts 0. */
  function H<Id>(t: Tree<Id>): int {
    if t.Nil? then 0 else t.height
  }

  function Max(a: int, b: int): int {
    if a > b then a else b
  }

  /** The height the tree really has. */
  function RealHeight<Id>(t: Tree<Id>): nat {
    if t.Nil? then 0 else 1 + Max(RealHeight(t.left), RealHeight(t.right))
  }

  /** The free blocks of the tree, from first address to size. */
  function Blocks<Id>(t: Tree<Id>): map<int, int> {
    if t.Nil? then map[] else Blocks(t.left) + map[t.base := t.size] + Blocks(t.right)
  }

  ghost function Ids<Id>(t: Tree<Id>): set<Id> {
    if t.Nil? then {} else Ids(t.left) + {t.id} + Ids(t.right)
  }

  /** Search order on the first addresses. */
  ghost predicate Ordered<Id>(t: Tree<Id>) {
    t.Br? ==>
      && Ordered(t.left)
      && Ordered(t.right)
      && (forall k :: k in Blocks(t.left) ==> k < t.base)
      && (forall k :: k in Blocks(t.right) ==> t.base < k)
  }

  /** No two nodes share their storage. */
  ghost predicate Distinct<Id>(t: Tree<Id>) {
    t.Br? ==>
      && Distinct(t.left)
      && Distinct(t.right)
      && t.id !in Ids(t.left)
      && t.id !in Ids(t.right)
      && Ids(t.left) !! Ids(t.right)
  }

  /** Every stored height is at least 1. */
  ghost predicate Positive<Id>(t: Tree<Id>) {
    t.Br? ==> t.height >= 1 && Positive(t.left) && Positive(t.right)
  }

  /** No stored height exceeds the real height of its subtree. */
  ghost predicate NotAbove<Id>(t: Tree<Id>) {
    t.Br? ==> t.height <= RealHeight(t) && NotAbove(t.left) && NotAbove(t.right)
  }

  // ---------------------------------------------------------------- the operations

  function Measured<Id>(t: Tree<Id>): Tree<Id> {
    if t.Nil? then t else t.(height := 1 + Max(H(t.left), H(t.right)))
  }

  function Balance<Id>(t: Tree<Id>): int {
    if t.Nil? then 0 else H(t.left) - H(t.right)
  }

  /** Right rotation; the new root's height is chosen by comparing with the lowered node's right child. */
  function RotateRight<Id>(t: Tree<Id>): Tree<Id> {
    if t.Nil? || t.left.Nil? then t
    else
      var x := t.left;
      var y := Measured(t.(left := x.right));
      x.(right := y, height := 1 + if H(x.left) > H(y.right) then H(x.left) else H(y))
  }

  /** Left rotation; the lowered node's height is chosen by comparing with the new root's right child. */
  function RotateLeft<Id>(t: Tree<Id>): Tree<Id> {
    if t.Nil? || t.right.Nil? then t
    else
      var y := t.right;
      var x := t.(right := y.left,
                  height := 1 + if H(t.left) > H(y.right) then H(t.left) else H(y.left));
      Measured(y.(left := x))
  }

  /** What an insertion does on its way back up through a node. */
  function SettleInsert<Id>(t: Tree<Id>, base: int): Tree<Id> {
    var n := Measured(t);
    if n.Nil? then n
    else if Balance(n) > 1 && n.left.Br? && base < n.left.base then RotateRight(n)
    else if Balance(n) < -1 && n.right.Br? && base > n.right.base then RotateLeft(n)
    else if Balance(n) > 1 && n.left.Br? && base > n.left.base then
      RotateRight(n.(left := RotateLeft(n.left)))
    else if Balance(n) < -1 && n.right.Br? && base < n.right.base then
      RotateLeft(n.(right := RotateRight(n.right)))
    else n
  }

  /** Insertion; `nu` is the storage a newly created node would get. */
  function Insert<Id>(t: Tree<Id>, base: int, size: int, nu: Id): Tree<Id> {
    if size == 0 then t
    else if t.Nil? then Br(nu, Nil, base, size, 1, Nil)
    else if base < t.base then SettleInsert(t.(left := Insert(t.left, base, size, nu)), base)
    else if base > t.base then SettleInsert(t.(right := Insert(t.right, base, size, nu)), base)
    else t
  }

  /**
    The way back up of an insertion follows a missing pointer: a node leans to one side although
    the new block went to the other, and the child it leans to has nothing to rotate up.
   */
  predicate SettleFaults<Id>(t: Tree<Id>, base: int) {
    && t.Br?
    && (|| (H(t.left) - H(t.right) > 1 && t.left.Br? && base > t.left.base && t.left.right.Nil?)
        || (H(t.left) - H(t.right) < -1 && t.right.Br? && base < t.right.base && t.right.left.Nil?))
  }

  /** Some settling step of the insertion follows a missing pointer. */
  predicate InsertFaults<Id>(t: Tree<Id>, base: int, size: int, nu: Id) {
    && size != 0
    && t.Br?
    && if base < t.base then
         InsertFaults(t.left, base, size, nu) || SettleFaults(t.(left := Insert(t.left, base, size, nu)), base)
       else if base > t.base then
         InsertFaults(t.right, base, size, nu) || SettleFaults(t.(right := Insert(t.right, base, size, nu)), base)
       else false
  }

  /** What a deletion does on its way back up through a node. */
  function SettleDelete<Id>(t: Tree<Id>): Tree<Id> {
    var n := Measured(t);
    if n.Nil? then n
    else if Balance(n) > 1 && Balance(n.left) >= 0 then RotateRight(n)
    else if Balance(n) < -1 && Balance(n.right) <= 0 then RotateLeft(n)
    else if Balance(n) > 1 && Balance(n.left) < 0 then RotateRight(n.(left := RotateLeft(n.left)))
    else if Balance(n) < -1 && Balance(n.right) > 0 then RotateLeft(n.(right := RotateRight(n.right)))
    else n
  }

  /** The node with the smallest base. */
  function Leftmost<Id>(t: Tree<Id>): (r: Tree<Id>)
    requires t.Br?
    ensures r.Br?
  {
    if t.left.Nil? then t else Leftmost(t.left)
  }

  /** Deletion; a node with two children takes over the data, not the storage, of its successor. */
  function Delete<Id>(t: Tree<Id>, base: int): Tree<Id> {
    if t.Nil? then t
    else if base < t.base then SettleDelete(t.(left := Delete(t.left, base)))
    else if base > t.base then SettleDelete(t.(right := Delete(t.right, base)))
    else if t.left.Nil? then t.right
    else if t.right.Nil? then t.left
    else
      var m := Leftmost(t.right);
      SettleDelete(t.(base := m.base, size := m.size, right := Delete(t.right, m.base)))
  }

  /** In-place change of the block stored under `key`. */
  function Carve<Id>(t: Tree<Id>, key: int, base: int, size: int): Tree<Id> {
    if t.Nil? then t
    else if key < t.base then t.(left := Carve(t.left, key, base, size))
    else if key > t.base then t.(right := Carve(t.right, key, base, size))
    else t.(base := base, size := size)
  }

  // ---------------------------------------------------------------- rotations

  /** What every tree of the allocator satisfies. */
  ghost predicate Sound<Id>(t: Tree<Id>) {
    Ordered(t) && Positive(t)
  }

  lemma UnionsAssociate(a: map<int, int>, x: map<int, int>, b: map<int, int>, y: map<int, int>, c: map<int, int>)
    ensures a + x + (b + y + c) == (a + x + b) + y + c
  {
  }

  /** The blocks of a tree whose children are spelled out. */
  lemma BlocksOf<Id>(t: Tree<Id>)
    requires t.Br?
    ensures Blocks(t) == Blocks(t.left) + map[t.base := t.size] + Blocks(t.right)
    ensures forall k :: k in Blocks(t) <==> k in Blocks(t.left) || k == t.base || k in Blocks(t.right)
  {
  }

  /** A tree over two ordered children. */
  lemma OrderedOver<Id>(t: Tree<Id>)
    requires t.Br? && Ordered(t.left) && Ordered(t.right)
    requires (forall k :: k in Blocks(t.left) ==> k < t.base) && (forall k :: k in Blocks(t.right) ==> t.base < k)
    ensures Ordered(t)
  {
  }

  lemma {:induction false} RotateRightBlocks<Id>(t: Tree<Id>)
    ensures Blocks(RotateRight(t)) == Blocks(t)
  {
    hide Blocks;
    if t.Br? && t.left.Br? {
      var x, r := t.left, RotateRight(t);
      BlocksOf(t); BlocksOf(x); BlocksOf(r); BlocksOf(r.right);
      UnionsAssociate(Blocks(x.left), map[x.base := x.size], Blocks(x.right), map[t.base := t.size], Blocks(t.right));
    }
  }

  lemma {:induction false} RotateRightOrdered<Id>(t: Tree<Id>)
    requires Ordered(t)
    ensures Ordered(RotateRight(t))
  {
    hide Blocks;
    if t.Br? && t.left.Br? {
      var x, r := t.left, RotateRight(t);
      BlocksOf(t); BlocksOf(x); BlocksOf(r.right);
      assert x.base in Blocks(x);
      OrderedOver(r.right);
      OrderedOver(r);
    }
  }

  lemma {:induction false} RotateRightHeights<Id>(t: Tree<Id>)
    requires Positive(t)
    ensures Positive(RotateRight(t)) && (NotAbove(t) ==> NotAbove(RotateRight(t)))
  {
    if t.Br? && t.left.Br? {
      var x, y := t.left, RotateRight(t).right;
      assert Positive(x) && Positive(x.left) && Positive(x.right) && Positive(t.right);
      assert y.left == x.right && y.right == t.right && Positive(y);
      if NotAbove(t) {
        assert NotAbove(x) && NotAbove(x.right) && NotAbove(x.left) && NotAbove(t.right);
        BoundedByReal(x.left); BoundedByReal(x.right); BoundedByReal(t.right);
        assert NotAbove(y);
        BoundedByReal(y);
      }
    }
  }

  /** Rotating right keeps the blocks, the order and both height bounds. */
  lemma {:induction false} RotateRightKeeps<Id>(t: Tree<Id>)
    requires Sound(t)
    ensures Blocks(RotateRight(t)) == Blocks(t)
    ensures Sound(RotateRight(t))
    ensures NotAbove(t) ==> NotAbove(RotateRight(t))
  {
    hide Blocks, Ordered, Positive, NotAbove, RotateRight;
    RotateRightBlocks(t);
    RotateRightOrdered(t);
    RotateRightHeights(t);
  }

  lemma {:induction false} RotateLeftBlocks<Id>(t: Tree<Id>)
    ensures Blocks(RotateLeft(t)) == Blocks(t)
  {
    hide Blocks;
    if t.Br? && t.right.Br? {
      var y, r := t.right, RotateLeft(t);
      BlocksOf(t); BlocksOf(y); BlocksOf(r); BlocksOf(r.left);
      UnionsAssociate(Blocks(t.left), map[t.base := t.size], Blocks(y.left), map[y.base := y.size], Blocks(y.right));
    }
  }

  lemma {:induction false} RotateLeftOrdered<Id>(t: Tree<Id>)
    requires Ordered(t)
    ensures Ordered(RotateLeft(t))
  {
    hide Blocks;
    if t.Br? && t.right.Br? {
      var y, r := t.right, RotateLeft(t);
      BlocksOf(t); BlocksOf(y); BlocksOf(r.left);
      assert y.base in Blocks(y);
      OrderedOver(r.left);
      OrderedOver(r);
    }
  }

  lemma {:induction false} RotateLeftHeights<Id>(t: Tree<Id>)
    requires Positive(t)
    ensures Positive(RotateLeft(t)) && (NotAbove(t) ==> NotAbove(RotateLeft(t)))
  {
    if t.Br? && t.right.Br? {
      var y, x := t.right, RotateLeft(t).left;
      assert Positive(y) && Positive(y.left) && Positive(y.right) && Positive(t.left);
      assert x.right == y.left && x.left == t.left && Positive(x);
      if NotAbove(t) {
        assert NotAbove(y) && NotAbove(y.left) && NotAbove(y.right) && NotAbove(t.left);
        BoundedByReal(t.left); BoundedByReal(y.left); BoundedByReal(y.right);
        assert NotAbove(x);
        BoundedByReal(x);
      }
    }
  }

  /** Rotating left keeps the blocks, the order and both height bounds. */
  lemma {:induction false} RotateLeftKeeps<Id>(t: Tree<Id>)
    requires Sound(t)
    ensures Blocks(RotateLeft(t)) == Blocks(t)
    ensures Sound(RotateLeft(t))
    ensures NotAbove(t) ==> NotAbove(RotateLeft(t))
  {
    hide Blocks, Ordered, Positive, NotAbove, RotateLeft;
    RotateLeftBlocks(t);
    RotateLeftOrdered(t);
    RotateLeftHeights(t);
  }

  lemma {:induction false} BoundedByReal<Id>(t: Tree<Id>)
    requires NotAbove(t)
    ensures H(t) <= RealHeight(t)
  {
  }

  lemma {:induction false} RotateRightKeepsIds<Id>(t: Tree<Id>)
    ensures Ids(RotateRight(t)) == Ids(t)
    ensures Distinct(t) ==> Distinct(RotateRight(t))
  {
    if t.Br? && t.left.Br? {
      var x := t.left;
      var y := Measured(t.(left := x.right));
      assert RotateRight(t).right == y && y.left == x.right && y.right == t.right;
      assert Ids(y) == Ids(x.right) + {t.id} + Ids(t.right);
      assert Ids(x) == Ids(x.left) + {x.id} + Ids(x.right);
      if Distinct(t) {
        assert Distinct(x) && Distinct(y);
      }
    }
  }

  lemma {:induction false} RotateLeftKeepsIds<Id>(t: Tree<Id>)
    ensures Ids(RotateLeft(t)) == Ids(t)
    ensures Distinct(t) ==> Distinct(RotateLeft(t))
  {
    if t.Br? && t.right.Br? {
      var y := t.right;
      var x := RotateLeft(t).left;
      assert RotateLeft(t).right == y.right && x.right == y.left && x.left == t.left;
      assert Ids(x) == Ids(t.left) + {t.id} + Ids(y.left);
      assert Ids(y) == Ids(y.left) + {y.id} + Ids(y.right);
      if Distinct(t) {
        assert Distinct(y) && Distinct(x);
      }
    }
  }

  // ---------------------------------------------------------------- one step back up

  lemma {:induction false} MeasuredKeeps<Id>(t: Tree<Id>)
    requires t.Br? ==> Ordered(t) && Positive(t.left) && Positive(t.right)
    ensures Blocks(Measured(t)) == Blocks(t)
    ensures Sound(Measured(t))
    ensures t.Br? && NotAbove(t.left) && NotAbove(t.right) ==> NotAbove(Measured(t))
  {
    if t.Br? && NotAbove(t.left) && NotAbove(t.right) {
      BoundedByReal(t.left);
      BoundedByReal(t.right);
    }
  }

  /** Replacing the left child by one with the same blocks. */
  lemma {:induction false} SwapLeft<Id>(n: Tree<Id>, l: Tree<Id>)
    requires n.Br? && Sound(n) && Sound(l) && Blocks(l) == Blocks(n.left)
    ensures Sound(n.(left := l)) && Blocks(n.(left := l)) == Blocks(n)
  {
  }

  /** Replacing the right child by one with the same blocks. */
  lemma {:induction false} SwapRight<Id>(n: Tree<Id>, r: Tree<Id>)
    requires n.Br? && Sound(n) && Sound(r) && Blocks(r) == Blocks(n.right)
    ensures Sound(n.(right := r)) && Blocks(n.(right := r)) == Blocks(n)
  {
  }

  /** A double rotation to the right; the outer node's height is recomputed, so any bound below will do. */
  lemma {:induction false} DoubleRightKeeps<Id>(n: Tree<Id>)
    requires n.Br? && n.left.Br? && Sound(n)
    ensures Blocks(RotateRight(n.(left := RotateLeft(n.left)))) == Blocks(n)
    ensures Sound(RotateRight(n.(left := RotateLeft(n.left))))
    ensures NotAbove(n) ==> NotAbove(RotateRight(n.(left := RotateLeft(n.left))))
  {
    var l := RotateLeft(n.left);
    var m := n.(left := l);
    RotateLeftKeeps(n.left);
    SwapLeft(n, l);
    RotateRightKeeps(m);
    if NotAbove(n) {
      RotateRightRemeasures(m, Measured(m));
      MeasuredKeeps(m);
      RotateRightKeeps(Measured(m));
    }
  }

  lemma {:induction false} DoubleLeftKeeps<Id>(n: Tree<Id>)
    requires n.Br? && n.right.Br? && Sound(n)
    ensures Blocks(RotateLeft(n.(right := RotateRight(n.right)))) == Blocks(n)
    ensures Sound(RotateLeft(n.(right := RotateRight(n.right))))
    ensures NotAbove(n) ==> NotAbove(RotateLeft(n.(right := RotateRight(n.right))))
  {
    var r := RotateRight(n.right);
    var m := n.(right := r);
    RotateRightKeeps(n.right);
    SwapRight(n, r);
    RotateLeftKeeps(m);
    if NotAbove(n) {
      RotateRightRemeasures(m, Measured(m));
      MeasuredKeeps(m);
      RotateLeftKeeps(Measured(m));
    }
  }

  /** A rotation does not read the height of the node it lowers. */
  lemma {:induction false} RotateRightRemeasures<Id>(t: Tree<Id>, u: Tree<Id>)
    requires t.Br? && u.Br? && u == t.(height := u.height)
    ensures RotateRight(u).Br? && (t.left.Br? ==> RotateRight(t) == RotateRight(u))
    ensures RotateLeft(u).Br? && (t.right.Br? ==> RotateLeft(t) == RotateLeft(u))
  {
  }

  lemma {:induction false} SettleInsertKeeps<Id>(t: Tree<Id>, base: int)
    requires t.Br? && Ordered(t) && Positive(t.left) && Positive(t.right)
    ensures Blocks(SettleInsert(t, base)) == Blocks(t)
    ensures Sound(SettleInsert(t, base))
    ensures NotAbove(t.left) && NotAbove(t.right) ==> NotAbove(SettleInsert(t, base))
  {
    var n := Measured(t);
    MeasuredKeeps(t);
    RotateRightKeeps(n);
    RotateLeftKeeps(n);
    if n.left.Br? { DoubleRightKeeps(n); }
    if n.right.Br? { DoubleLeftKeeps(n); }
  }

  lemma {:induction false} SettleDeleteKeeps<Id>(t: Tree<Id>)
    requires t.Br? && Ordered(t) && Positive(t.left) && Positive(t.right)
    ensures Blocks(SettleDelete(t)) == Blocks(t)
    ensures Sound(SettleDelete(t))
    ensures NotAbove(t.left) && NotAbove(t.right) ==> NotAbove(SettleDelete(t))
  {
    var n := Measured(t);
    MeasuredKeeps(t);
    RotateRightKeeps(n);
    RotateLeftKeeps(n);
    if n.left.Br? { DoubleRightKeeps(n); }
    if n.right.Br? { DoubleLeftKeeps(n); }
  }

  lemma {:induction false} SettlesKeepIds<Id>(t: Tree<Id>, base: int)
    ensures Ids(SettleInsert(t, base)) == Ids(t) && Ids(SettleDelete(t)) == Ids(t)
    ensures Distinct(t) ==> Distinct(SettleInsert(t, base)) && Distinct(SettleDelete(t))
  {
    var n := Measured(t);
    assert Ids(n) == Ids(t) && Distinct(n) == Distinct(t);
    RotateRightKeepsIds(n);
    RotateLeftKeepsIds(n);
    if t.Br? {
      RotateLeftKeepsIds(n.left);
      RotateRightKeepsIds(n.(left := RotateLeft(n.left)));
      RotateRightKeepsIds(n.right);
      RotateLeftKeepsIds(n.(right := RotateRight(n.right)));
    }
  }

  // ---------------------------------------------------------------- replacing a child

  lemma UnionUpdates(l: map<int, int>, m: map<int, int>, r: map<int, int>, k: int, v: int)
    requires k !in m
    ensures k !in r ==> l[k := v] + m + r == (l + m + r)[k := v]
    ensures l + m + r[k := v] == (l + m + r)[k := v]
  {
  }

  lemma UnionRemoves(l: map<int, int>, m: map<int, int>, r: map<int, int>, k: int)
    requires k !in m
    ensures k !in r ==> (l - {k}) + m + r == (l + m + r) - {k}
    ensures k !in l ==> l + m + (r - {k}) == (l + m + r) - {k}
  {
  }

  /** A left child whose keys stay below the root keeps the root ordered. */
  lemma {:induction false} GraftLeft<Id>(t: Tree<Id>, l: Tree<Id>)
    requires t.Br? && Sound(t) && Sound(l)
    requires forall k :: k in Blocks(l) ==> k < t.base
    ensures Ordered(t.(left := l))
    ensures Blocks(t.(left := l)) == Blocks(l) + map[t.base := t.size] + Blocks(t.right)
  {
  }

  /** A right child whose keys stay above the root keeps the root ordered. */
  lemma {:induction false} GraftRight<Id>(t: Tree<Id>, r: Tree<Id>)
    requires t.Br? && Sound(t) && Sound(r)
    requires forall k :: k in Blocks(r) ==> t.base < k
    ensures Ordered(t.(right := r))
    ensures Blocks(t.(right := r)) == Blocks(t.left) + map[t.base := t.size] + Blocks(r)
  {
  }

  /** Where a key of an ordered tree lives. */
  lemma {:induction false} KeySide<Id>(t: Tree<Id>, key: int)
    requires t.Br? && Ordered(t)
    ensures key < t.base ==> key !in Blocks(t.right) && (key in Blocks(t) <==> key in Blocks(t.left))
    ensures key > t.base ==> key !in Blocks(t.left) && (key in Blocks(t) <==> key in Blocks(t.right))
    ensures key in Blocks(t.left) ==> Blocks(t)[key] == Blocks(t.left)[key]
    ensures key in Blocks(t.right) ==> Blocks(t)[key] == Blocks(t.right)[key]
    ensures t.base in Blocks(t) && Blocks(t)[t.base] == t.size
    ensures t.base !in Blocks(t.left) && t.base !in Blocks(t.right)
  {
  }

  // ---------------------------------------------------------------- insertion

  /**
    Insertion refines adding one entry to a finite map: a fresh address is added with its size,
    and a size of 0 or an address already present leaves the map alone. Order and both height
    bounds survive.
   */
  lemma {:induction false} InsertRefinesMap<Id>(t: Tree<Id>, base: int, size: int, nu: Id)
    requires Sound(t)
    ensures Blocks(Insert(t, base, size, nu)) ==
            if size == 0 || base in Blocks(t) then Blocks(t) else Blocks(t)[base := size]
    ensures Sound(Insert(t, base, size, nu))
    ensures NotAbove(t) ==> NotAbove(Insert(t, base, size, nu))
    decreases t
  {
    if size != 0 && t.Br? {
      KeySide(t, base);
      var m := map[t.base := t.size];
      if base < t.base {
        var l := Insert(t.left, base, size, nu);
        InsertRefinesMap(t.left, base, size, nu);
        GraftLeft(t, l);
        UnionUpdates(Blocks(t.left), m, Blocks(t.right), base, size);
        SettleInsertKeeps(t.(left := l), base);
      } else if base > t.base {
        var r := Insert(t.right, base, size, nu);
        InsertRefinesMap(t.right, base, size, nu);
        GraftRight(t, r);
        UnionUpdates(Blocks(t.left), m, Blocks(t.right), base, size);
        SettleInsertKeeps(t.(right := r), base);
      }
    }
  }

  lemma {:induction false} InsertIds<Id>(t: Tree<Id>, base: int, size: int, nu: Id)
    requires Ordered(t)
    ensures Ids(Insert(t, base, size, nu)) ==
            if size == 0 || base in Blocks(t) then Ids(t) else Ids(t) + {nu}
    ensures Distinct(t) && (nu !in Ids(t) || base in Blocks(t)) ==> Distinct(Insert(t, base, size, nu))
    decreases t
  {
    if size != 0 && t.Br? {
      if base < t.base {
        InsertIds(t.left, base, size, nu);
        SettlesKeepIds(t.(left := Insert(t.left, base, size, nu)), base);
      } else if base > t.base {
        InsertIds(t.right, base, size, nu);
        SettlesKeepIds(t.(right := Insert(t.right, base, size, nu)), base);
      }
    }
  }

  /** An insertion under an address already present creates nothing, so its storage does not matter. */
  lemma {:induction false} InsertPresent<Id>(t: Tree<Id>, base: int, size: int, nu: Id, nu': Id)
    requires Ordered(t) && base in Blocks(t)
    ensures Insert(t, base, size, nu) == Insert(t, base, size, nu')
    ensures InsertFaults(t, base, size, nu) == InsertFaults(t, base, size, nu')
    decreases t
  {
    KeySide(t, base);
    if base < t.base {
      InsertPresent(t.left, base, size, nu, nu');
    } else if base > t.base {
      InsertPresent(t.right, base, size, nu, nu');
    }
  }

  // ---------------------------------------------------------------- deletion

  lemma {:induction false} LeftmostIsLeast<Id>(t: Tree<Id>)
    requires t.Br? && Ordered(t)
    ensures var m := Leftmost(t);
            && m.base in Blocks(t) && Blocks(t)[m.base] == m.size
            && m.id in Ids(t)
            && m.left.Nil?
            && forall k :: k in Blocks(t) ==> m.base <= k
    decreases t
  {
    if t.left.Br? {
      LeftmostIsLeast(t.left);
    }
  }

  /** Deletion refines removing one entry from a finite map; order and both height bounds survive. */
  lemma {:induction false} DeleteRefinesMap<Id>(t: Tree<Id>, base: int)
    requires Sound(t)
    ensures Blocks(Delete(t, base)) == Blocks(t) - {base}
    ensures Sound(Delete(t, base))
    ensures NotAbove(t) ==> NotAbove(Delete(t, base))
    decreases t
  {
    hide SettleDelete, Blocks, Leftmost;
    if t.Br? {
      KeySide(t, base);
      BlocksOf(t);
      var m := map[t.base := t.size];
      if base < t.base {
        var l := Delete(t.left, base);
        DeleteRefinesMap(t.left, base);
        GraftLeft(t, l);
        UnionRemoves(Blocks(t.left), m, Blocks(t.right), base);
        SettleDeleteKeeps(t.(left := l));
      } else if base > t.base {
        var r := Delete(t.right, base);
        DeleteRefinesMap(t.right, base);
        GraftRight(t, r);
        UnionRemoves(Blocks(t.left), m, Blocks(t.right), base);
        SettleDeleteKeeps(t.(right := r));
      } else if t.left.Nil? {
        OneSide(t);
      } else if t.right.Nil? {
        OneSide(t);
      } else {
        DeleteRefinesMap(t.right, Leftmost(t.right).base);
        DeleteInner(t);
      }
    } else {
      NoBlocks(t, base);
    }
  }

  lemma NoBlocks<Id>(t: Tree<Id>, base: int)
    requires t.Nil?
    ensures Blocks(t) == map[] && Blocks(t) - {base} == Blocks(t)
  {
  }

  lemma {:induction false} OneSide<Id>(t: Tree<Id>)
    requires t.Br? && Ordered(t)
    ensures t.left.Nil? ==> Blocks(t) - {t.base} == Blocks(t.right)
    ensures t.right.Nil? ==> Blocks(t) - {t.base} == Blocks(t.left)
  {
    KeySide(t, t.base);
  }

  /** The two-child case: the successor's data moves up and its node goes. */
  lemma {:induction false} DeleteInner<Id>(t: Tree<Id>)
    requires Sound(t) && t.Br? && t.left.Br? && t.right.Br?
    requires var m, r := Leftmost(t.right), Delete(t.right, Leftmost(t.right).base);
             Blocks(r) == Blocks(t.right) - {m.base} && Sound(r) && (NotAbove(t.right) ==> NotAbove(r))
    ensures Blocks(Delete(t, t.base)) == Blocks(t) - {t.base}
    ensures Sound(Delete(t, t.base))
    ensures NotAbove(t) ==> NotAbove(Delete(t, t.base))
  {
    hide Blocks, SettleDelete, Leftmost;
    var m, r := Leftmost(t.right), Delete(t.right, Leftmost(t.right).base);
    LeftmostIsLeast(t.right);
    var u := t.(base := m.base, size := m.size, right := r);
    BlocksOf(t);
    BlocksOf(u);
    OrderedOver(u);
    MovesUp(Blocks(t.left), t.base, t.size, Blocks(t.right), m.base);
    SettleDeleteKeeps(u);
  }

  lemma MovesUp(l: map<int, int>, b: int, s: int, r: map<int, int>, k: int)
    requires k in r && k !in l && b !in l && b !in r
    ensures l + map[k := r[k]] + (r - {k}) == (l + map[b := s] + r) - {b}
  {
  }

  lemma {:induction false} DeleteIds<Id>(t: Tree<Id>, base: int)
    ensures Ids(Delete(t, base)) <= Ids(t)
    ensures Distinct(t) ==> Distinct(Delete(t, base))
    decreases t
  {
    if t.Br? {
      if base < t.base {
        DeleteIds(t.left, base);
        SettlesKeepIds(t.(left := Delete(t.left, base)), base);
      } else if base > t.base {
        DeleteIds(t.right, base);
        SettlesKeepIds(t.(right := Delete(t.right, base)), base);
      } else if t.left.Br? && t.right.Br? {
        var m := Leftmost(t.right);
        DeleteIds(t.right, m.base);
        SettlesKeepIds(t.(base := m.base, size := m.size, right := Delete(t.right, m.base)), base);
      }
    }
  }

  // ---------------------------------------------------------------- shrinking a block in place

  /** `base` may take the place of `key` in the order of `t`. */
  ghost predicate Replaceable<Id>(t: Tree<Id>, key: int, base: int) {
    forall k :: k in Blocks(t) && k != key ==> (k < key <==> k < base) && k != base
  }

  lemma {:induction false} CarveRefinesMap<Id>(t: Tree<Id>, key: int, base: int, size: int)
    requires Sound(t) && key in Blocks(t) && Replaceable(t, key, base)
    ensures Blocks(Carve(t, key, base, size)) == (Blocks(t) - {key})[base := size]
    ensures Sound(Carve(t, key, base, size))
    ensures NotAbove(t) ==> NotAbove(Carve(t, key, base, size))
    ensures RealHeight(Carve(t, key, base, size)) == RealHeight(t)
    decreases t
  {
    KeySide(t, key);
    var m := map[t.base := t.size];
    if key < t.base {
      var l := Carve(t.left, key, base, size);
      assert forall k :: k in Blocks(t.left) ==> k in Blocks(t);
      CarveRefinesMap(t.left, key, base, size);
      KeySide(t, base);
      assert base < t.base;
      GraftLeft(t, l);
      UnionReplaces(Blocks(t.left), m, Blocks(t.right), key, base, size);
    } else if key > t.base {
      var r := Carve(t.right, key, base, size);
      assert forall k :: k in Blocks(t.right) ==> k in Blocks(t);
      CarveRefinesMap(t.right, key, base, size);
      KeySide(t, base);
      assert base > t.base;
      GraftRight(t, r);
      UnionReplaces(Blocks(t.left), m, Blocks(t.right), key, base, size);
    } else {
      CarveRoot(t, base, size);
    }
  }

  lemma {:induction false} CarveRoot<Id>(t: Tree<Id>, base: int, size: int)
    requires t.Br? && Sound(t) && Replaceable(t, t.base, base)
    ensures Ordered(t.(base := base, size := size))
    ensures Blocks(t.(base := base, size := size)) == (Blocks(t) - {t.base})[base := size]
  {
    KeySide(t, base);
    KeySide(t, t.base);
    assert forall k :: k in Blocks(t.left) || k in Blocks(t.right) ==> k in Blocks(t);
    MiddleReplaced(Blocks(t.left), Blocks(t.right), t.base, t.size, base, size);
  }

  lemma MiddleReplaced(l: map<int, int>, r: map<int, int>, key: int, v: int, k: int, w: int)
    requires key !in l && key !in r && k !in l && k !in r
    ensures l + map[k := w] + r == (l + map[key := v] + r - {key})[k := w]
  {
  }

  lemma UnionReplaces(l: map<int, int>, m: map<int, int>, r: map<int, int>, key: int, k: int, v: int)
    requires key !in m && k !in m
    ensures key !in r && k !in r ==> (l - {key})[k := v] + m + r == (l + m + r - {key})[k := v]
    ensures key !in l && k !in l ==> l + m + (r - {key})[k := v] == (l + m + r - {key})[k := v]
  {
  }

  lemma {:induction false} CarveKeepsIds<Id>(t: Tree<Id>, key: int, base: int, size: int)
    ensures Ids(Carve(t, key, base, size)) == Ids(t)
    ensures Distinct(t) ==> Distinct(Carve(t, key, base, size))
    decreases t
  {
    if t.Br? {
      CarveKeepsIds(t.left, key, base, size);
      CarveKeepsIds(t.right, key, base, size);
    }
  }

  // ---------------------------------------------------------------- search paths

  /** The child on the search path of `base`. */
  function Toward<Id>(t: Tree<Id>, base: int): Tree<Id>
    requires t.Br?
  {
    if base < t.base then t.left else t.right
  }

  /** `s` hangs on the search path of `base` in `t`. */
  ghost predicate OnPath<Id>(t: Tree<Id>, base: int, s: Tree<Id>) {
    s == t || (t.Br? && base != t.base && OnPath(Toward(t, base), base, s))
  }

  // ---------------------------------------------------------------- when insertion cannot fault

  /** No node claims more height than its children justify. */
  ghost predicate Honest<Id>(t: Tree<Id>) {
    t.Br? ==> Honest(t.left) && Honest(t.right) && t.height <= 1 + Max(H(t.left), H(t.right))
  }

  /** By the stored heights, no node leans by more than one. */
  ghost predicate Level<Id>(t: Tree<Id>) {
    t.Br? ==> Level(t.left) && Level(t.right) && -1 <= H(t.left) - H(t.right) <= 1
  }

  lemma {:induction false} RotationsKeepHonest<Id>(t: Tree<Id>)
    requires t.Br? ==> Honest(t.left) && Honest(t.right)
    ensures t.Br? && t.left.Br? ==> Honest(RotateRight(t))
    ensures t.Br? && t.right.Br? ==> Honest(RotateLeft(t))
  {
    if t.Br? && t.left.Br? {
      assert Honest(t.left.left) && Honest(t.left.right);
      assert Honest(RotateRight(t).right);
    }
    if t.Br? && t.right.Br? {
      assert Honest(t.right.left) && Honest(t.right.right);
      assert Honest(RotateLeft(t).left);
    }
  }

  /** A right rotation stores at least two more than the child that stays behind. */
  lemma {:induction false} RightFloor<Id>(n: Tree<Id>)
    requires n.Br? && n.left.Br?
    ensures H(RotateRight(n)) >= H(n.right) + 2
  {
  }

  /** A left rotation does too, if what it rotates up is honest about its height. */
  lemma {:induction false} LeftFloor<Id>(n: Tree<Id>)
    requires n.Br? && n.right.Br?
    requires H(n.left) <= Max(H(n.right.left), H(n.right.right)) - 1 || H(n.left) <= H(n.right.left)
    ensures H(RotateLeft(n)) >= H(n.left) + 2
  {
  }

  lemma {:induction false} RightLeftFloor<Id>(n: Tree<Id>)
    requires n.Br? && n.right.Br? && n.right.left.Br? && Honest(n.right) && Positive(n.left) && Positive(n.right)
    requires H(n.right) >= H(n.left) + 2
    ensures H(RotateLeft(n.(right := RotateRight(n.right)))) >= H(n.left) + 2
  {
    var q := n.right.left;
    assert Honest(q) && Positive(q);
    var m := n.(right := RotateRight(n.right));
    assert m.right.left == q.left && H(m.right.right) == 1 + Max(H(q.right), H(n.right.right));
    LeftFloor(m);
  }

  /** One settling step above a level node whose child on the path did not get lower. */
  lemma {:induction false} LevelSettles<Id>(t: Tree<Id>, u: Tree<Id>, base: int)
    requires t.Br? && u.Br? && Level(t) && Honest(t) && u.base == t.base && base != t.base
    requires Honest(u.left) && Honest(u.right) && Sound(u.left) && Sound(u.right)
    requires base < t.base ==> u.right == t.right && H(t.left) <= H(u.left) && base in Blocks(u.left)
    requires base > t.base ==> u.left == t.left && H(t.right) <= H(u.right) && base in Blocks(u.right)
    ensures !SettleFaults(u, base)
    ensures H(t) <= H(SettleInsert(u, base)) && Honest(SettleInsert(u, base))
  {
    var n := Measured(u);
    if base < t.base { KeySide(n.left, base); } else { KeySide(n.right, base); }
    assert Positive(n.left) && Positive(n.right);
    RotationsKeepHonest(n);
    if Balance(n) > 1 {
      RightFloor(n);
      RotationsKeepHonest(n.left);
      if n.left.right.Br? {
        RightFloor(n.(left := RotateLeft(n.left)));
        RotationsKeepHonest(n.(left := RotateLeft(n.left)));
      }
    } else if Balance(n) < -1 {
      assert H(n.right) <= 1 + Max(H(n.right.left), H(n.right.right));
      if base > n.right.base {
        LeftFloor(n);
      } else if base < n.right.base {
        RightLeftFloor(n);
        RotationsKeepHonest(n.right);
        RotationsKeepHonest(n.(right := RotateRight(n.right)));
      }
    }
  }

  /**
    On a tree that is level by its own account an insertion never faults; nor does it lower the
    stored height, and the result is honest again.
   */
  lemma {:induction false} LevelNeverFaults<Id>(t: Tree<Id>, base: int, size: int, nu: Id)
    requires Level(t) && Honest(t) && Sound(t)
    ensures !InsertFaults(t, base, size, nu)
    ensures H(t) <= H(Insert(t, base, size, nu)) && Honest(Insert(t, base, size, nu))
    decreases t
  {
    if size != 0 && t.Br? && base != t.base {
      var c := if base < t.base then t.left else t.right;
      LevelNeverFaults(c, base, size, nu);
      InsertRefinesMap(c, base, size, nu);
      if base < t.base {
        LevelSettles(t, t.(left := Insert(c, base, size, nu)), base);
      } else {
        LevelSettles(t, t.(right := Insert(c, base, size, nu)), base);
      }
    }
  }

  // ---------------------------------------------------------------- heights can be too low

  /**
    The stored heights are a lower bound only: deleting 30 from the tree with root 20, left child
    10 over 5 and 15, and right child 30 leaves a root that stores 2 although its height is 3.
   */
  lemma HeightsCanBeTooLow(t: Tree<()>)
    requires t == Br((), Br((), Br((), Nil, 5, 1, 1, Nil), 10, 1, 2, Br((), Nil, 15, 1, 1, Nil)), 20, 1, 3,
                     Br((), Nil, 30, 1, 1, Nil))
    ensures Sound(t) && NotAbove(t) && H(t) == RealHeight(t)
    ensures H(Delete(t, 30)) == 2 && RealHeight(Delete(t, 30)) == 3
  {
    TallTree(t);
    hide Blocks;
    var l, n := t.left, Measured(t.(right := Nil));
    assert Delete(t.right, 30) == Nil;
    var y := Measured(n.(left := l.right));
    assert RealHeight(l.right) == 1 && RealHeight(l) == 2;
    assert y.height == 2 && RealHeight(y) == 2;
    assert RotateRight(n) == l.(right := y, height := 2);
  }

  lemma TallTree(t: Tree<()>)
    requires t == Br((), Br((), Br((), Nil, 5, 1, 1, Nil), 10, 1, 2, Br((), Nil, 15, 1, 1, Nil)), 20, 1, 3,
                     Br((), Nil, 30, 1, 1, Nil))
    ensures Sound(t) && NotAbove(t)
  {
    var l := t.left;
    assert Blocks(l.left) == map[5 := 1] && Blocks(l.right) == map[15 := 1];
    BlocksOf(l);
    assert Blocks(t.right) == map[30 := 1];
    assert Sound(l) && Sound(t.right);
    assert RealHeight(l) == 2 && NotAbove(l);
  }
}
