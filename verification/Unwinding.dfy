/**
  What an insertion links on its way back up when its tree was changed below it. It came down the
  search path by the blocks of the old tree `t`; meanwhile the storage for the new node was taken
  from the block `b` of the same tree, which shrank, or was used up and deleted with rotations of its
  own. Each node of the path is then linked to what its call returned, on the side it came down by,
  and keeps on its other side whatever the deletion left there.
 */
module Unwinding {
  import opened AvlTree
  import opened FreeBlocks
  import opened HeapModel

  const DRAW := 28   // a tree node of 20 bytes and its header

  // ---------------------------------------------------------------- what a draw does to the tree

  /** The block the storage comes from. */
  ghost predicate Serves<Id>(t: Tree<Id>, b: Tree<Id>) {
    b.Br? && b == BestFit(t, DRAW) && b.size >= DRAW
  }

  /** The tree with the front of `b` cut off; a block that is used up is still there, now empty. */
  function Shrunk<Id>(t: Tree<Id>, b: Tree<Id>): Tree<Id>
    requires b.Br?
  {
    Carve(t, b.base, b.base + DRAW, b.size - DRAW)
  }

  /** The tree once the storage has been taken from `b`; a block that is used up is deleted. */
  function Drawn<Id>(t: Tree<Id>, b: Tree<Id>): Tree<Id>
    requires b.Br?
  {
    Carved(t, b.base, b.base + DRAW, b.size - DRAW)
  }

  // ---------------------------------------------------------------- nodes by their storage

  /** The subtree whose root has the storage `x`. */
  ghost function Sub<Id>(t: Tree<Id>, x: Id): (r: Tree<Id>)
    ensures r.Br? <==> x in Ids(t)
    ensures r.Br? ==> r.id == x && Ids(r) <= Ids(t)
  {
    if t.Nil? then Nil
    else if t.id == x then t
    else if x in Ids(t.left) then Sub(t.left, x)
    else Sub(t.right, x)
  }

  lemma {:induction false} SubDistinct<Id>(t: Tree<Id>, x: Id)
    requires Distinct(t)
    ensures Distinct(Sub(t, x))
    ensures var c := Sub(t, x);
            && (c.Br? && c.left.Br? ==> Sub(t, c.left.id) == c.left)
            && (c.Br? && c.right.Br? ==> Sub(t, c.right.id) == c.right)
    decreases t
  {
    if t.Br? && t.id != x {
      if x in Ids(t.left) { SubDistinct(t.left, x); } else { SubDistinct(t.right, x); }
    }
  }

  /** The node `x` after the draw: as the drawn tree `d` has it, or as it was when it was unlinked from `z`. */
  ghost function CellAt<Id>(d: Tree<Id>, z: Tree<Id>, x: Id): (c: Tree<Id>)
    ensures x in Ids(z) ==> c.Br? && c.id == x
  {
    if x in Ids(d) then Sub(d, x) else Sub(z, x)
  }

  /** What hangs from a link to the root of `c`. */
  ghost function Hung<Id>(d: Tree<Id>, c: Tree<Id>): Tree<Id> {
    if c.Nil? then Nil else Sub(d, c.id)
  }

  // ---------------------------------------------------------------- the way back up

  /** The nodes of the search path of `base` in `s`, strung together again. */
  ghost function Strung<Id>(s: Tree<Id>, d: Tree<Id>, z: Tree<Id>, base: int): (u: Tree<Id>)
    requires Ids(s) <= Ids(z)
    ensures u.Br? <==> s.Br?
    ensures u.Br? ==> u.id == s.id
    decreases s
  {
    if s.Nil? then Nil
    else
      var c := CellAt(d, z, s.id);
      if base < s.base then c.(left := Strung(s.left, d, z, base), right := Hung(d, c.right))
      else c.(left := Hung(d, c.left), right := Strung(s.right, d, z, base))
  }

  /** The tree the insertion goes on to work on once it has its storage. */
  ghost function Resumed<Id>(t: Tree<Id>, b: Tree<Id>, base: int): Tree<Id>
    requires b.Br?
  {
    CarveKeepsIds(t, b.base, b.base + DRAW, b.size - DRAW);
    Strung(t, Drawn(t, b), Shrunk(t, b), base)
  }

  /** The insertion into `u` by someone who came down the search path of `base` in `s`. */
  function Along<Id>(s: Tree<Id>, u: Tree<Id>, base: int, size: int, nu: Id): Tree<Id>
    decreases s
  {
    if s.Nil? || u.Nil? then Br(nu, Nil, base, size, 1, Nil)
    else if base < s.base then SettleInsert(u.(left := Along(s.left, u.left, base, size, nu)), base)
    else SettleInsert(u.(right := Along(s.right, u.right, base, size, nu)), base)
  }

  /** Some settling step of it follows a missing pointer. */
  predicate AlongFaults<Id>(s: Tree<Id>, u: Tree<Id>, base: int, size: int, nu: Id)
    decreases s
  {
    && s.Br? && u.Br?
    && if base < s.base then
         || AlongFaults(s.left, u.left, base, size, nu)
         || SettleFaults(u.(left := Along(s.left, u.left, base, size, nu)), base)
       else
         || AlongFaults(s.right, u.right, base, size, nu)
         || SettleFaults(u.(right := Along(s.right, u.right, base, size, nu)), base)
  }

  /** The search path of `base` runs over the same nodes in both trees, and turns the same way. */
  ghost predicate SamePath<Id>(t: Tree<Id>, u: Tree<Id>, base: int) {
    if t.Nil? then u.Nil?
    else
      && u.Br? && t.id == u.id && base != t.base && base != u.base && (base < t.base <==> base < u.base)
      && SamePath(Toward(t, base), Toward(u, base), base)
  }

  /** Where the path turns as it did, coming down it is no different from searching. */
  lemma {:induction false} AlongIsInsert<Id>(s: Tree<Id>, u: Tree<Id>, base: int, size: int, nu: Id)
    requires SamePath(s, u, base) && size != 0
    ensures Along(s, u, base, size, nu) == Insert(u, base, size, nu)
    ensures AlongFaults(s, u, base, size, nu) == InsertFaults(u, base, size, nu)
    decreases s
  {
    hide SettleInsert, SettleFaults;
    if s.Br? { AlongIsInsert(Toward(s, base), Toward(u, base), base, size, nu); }
  }

  /** `u` is strung on the search path of `base` in `s`. */
  ghost predicate Follows<Id>(s: Tree<Id>, u: Tree<Id>, base: int)
    decreases s
  {
    if s.Nil? then u.Nil?
    else
      && u.Br? && u.id == s.id
      && if base < s.base then Follows(s.left, u.left, base) else Follows(s.right, u.right, base)
  }

  lemma {:induction false} StrungFollows<Id>(s: Tree<Id>, d: Tree<Id>, z: Tree<Id>, base: int)
    requires Ids(s) <= Ids(z)
    ensures Follows(s, Strung(s, d, z, base), base)
    decreases s
  {
    if s.Br? { StrungFollows(Toward(s, base), d, z, base); }
  }

  /** The new node joins the nodes strung together; every stored height stays at least 1. */
  lemma {:induction false} AlongIds<Id>(s: Tree<Id>, u: Tree<Id>, base: int, size: int, nu: Id)
    requires Follows(s, u, base)
    ensures Ids(Along(s, u, base, size, nu)) == Ids(u) + {nu}
    ensures Distinct(u) && nu !in Ids(u) ==> Distinct(Along(s, u, base, size, nu))
    ensures Positive(u) ==> Positive(Along(s, u, base, size, nu))
    decreases s
  {
    hide SettleInsert, SettleDelete;
    if s.Br? {
      if base < s.base {
        AlongIds(s.left, u.left, base, size, nu);
        SettlesKeepIds(u.(left := Along(s.left, u.left, base, size, nu)), base);
        SettlePositive(u.(left := Along(s.left, u.left, base, size, nu)), base);
      } else {
        AlongIds(s.right, u.right, base, size, nu);
        SettlesKeepIds(u.(right := Along(s.right, u.right, base, size, nu)), base);
        SettlePositive(u.(right := Along(s.right, u.right, base, size, nu)), base);
      }
    }
  }

  lemma {:induction false} SettlePositive<Id>(t: Tree<Id>, base: int)
    ensures t.Br? && Positive(t.left) && Positive(t.right) ==> Positive(SettleInsert(t, base))
  {
    hide RotateRight, RotateLeft;
    if t.Br? && Positive(t.left) && Positive(t.right) {
      var n := Measured(t);
      assert Positive(n);
      RotateRightHeights(n);
      RotateLeftHeights(n);
      RotateLeftHeights(n.left);
      RotateRightHeights(n.(left := RotateLeft(n.left)));
      RotateRightHeights(n.right);
      RotateLeftHeights(n.(right := RotateRight(n.right)));
    }
  }

  // ---------------------------------------------------------------- reading a tree from left to right

  /** The blocks of a tree, from left to right. */
  function Row<Id>(t: Tree<Id>): seq<(int, int)> {
    if t.Nil? then [] else Row(t.left) + [(t.base, t.size)] + Row(t.right)
  }

  ghost predicate Rising(r: seq<(int, int)>) {
    forall i, j :: 0 <= i < j < |r| ==> r[i].0 < r[j].0
  }

  lemma {:induction false} RotateRow<Id>(t: Tree<Id>)
    ensures Row(RotateRight(t)) == Row(t) && Row(RotateLeft(t)) == Row(t)
  {
    if t.Br? && t.left.Br? {
      var x := t.left;
      var y := Measured(t.(left := x.right));
      assert RotateRight(t).left == x.left && RotateRight(t).right == y;
      assert Row(y) == Row(x.right) + [(t.base, t.size)] + Row(t.right);
      assert Row(x) == Row(x.left) + [(x.base, x.size)] + Row(x.right);
    }
    if t.Br? && t.right.Br? {
      var y, x := t.right, RotateLeft(t).left;
      assert RotateLeft(t).right == y.right;
      assert Row(x) == Row(t.left) + [(t.base, t.size)] + Row(y.left);
      assert Row(y) == Row(y.left) + [(y.base, y.size)] + Row(y.right);
    }
  }

  lemma {:induction false} SettleRow<Id>(t: Tree<Id>, base: int)
    ensures Row(SettleInsert(t, base)) == Row(t)
  {
    hide RotateRight, RotateLeft;
    if t.Br? {
      var n := Measured(t);
      assert Row(n) == Row(t);
      RotateRow(n);
      RotateRow(n.left);
      RotateRow(n.right);
      var l, r := n.(left := RotateLeft(n.left)), n.(right := RotateRight(n.right));
      assert Row(l) == Row(n) && Row(r) == Row(n);
      RotateRow(l);
      RotateRow(r);
    }
  }

  /** What lies left of the path, and right of it. */
  function Before<Id>(s: Tree<Id>, u: Tree<Id>, base: int): seq<(int, int)>
    decreases s
  {
    if s.Nil? || u.Nil? then []
    else if base < s.base then Before(s.left, u.left, base)
    else Row(u.left) + [(u.base, u.size)] + Before(s.right, u.right, base)
  }

  function After<Id>(s: Tree<Id>, u: Tree<Id>, base: int): seq<(int, int)>
    decreases s
  {
    if s.Nil? || u.Nil? then []
    else if base < s.base then After(s.left, u.left, base) + [(u.base, u.size)] + Row(u.right)
    else After(s.right, u.right, base)
  }

  /** The new block ends up between what lies left of the path and what lies right of it, and nothing else moves. */
  lemma {:induction false} AlongRow<Id>(s: Tree<Id>, u: Tree<Id>, base: int, size: int, nu: Id)
    requires Follows(s, u, base)
    ensures Row(u) == Before(s, u, base) + After(s, u, base)
    ensures Row(Along(s, u, base, size, nu)) == Before(s, u, base) + [(base, size)] + After(s, u, base)
    decreases s
  {
    hide SettleInsert;
    if s.Nil? {
      assert Row(Along(s, u, base, size, nu)) == [(base, size)];
    } else {
      var here := [(u.base, u.size)];
      if base < s.base {
        var l := Along(s.left, u.left, base, size, nu);
        AlongRow(s.left, u.left, base, size, nu);
        SettleRow(u.(left := l), base);
        Regroup(Before(s.left, u.left, base), [], After(s.left, u.left, base), here, Row(u.right));
        Regroup(Before(s.left, u.left, base), [(base, size)], After(s.left, u.left, base), here, Row(u.right));
        assert Row(u.(left := l)) == Row(l) + here + Row(u.right);
      } else {
        var r := Along(s.right, u.right, base, size, nu);
        AlongRow(s.right, u.right, base, size, nu);
        SettleRow(u.(right := r), base);
        assert Row(u.(right := r)) == Row(u.left) + here + Row(r);
        Regroup(Row(u.left), here, Before(s.right, u.right, base), [], After(s.right, u.right, base));
        Regroup(Row(u.left), here, Before(s.right, u.right, base), [(base, size)], After(s.right, u.right, base));
      }
    }
  }

  lemma Regroup<T>(a: seq<T>, b: seq<T>, c: seq<T>, d: seq<T>, e: seq<T>)
    ensures (a + b + c) + d + e == a + b + (c + d + e)
    ensures a + b + (c + d + e) == (a + b + c) + d + e
    ensures b == [] ==> a + b + (c + d + e) == a + (c + d + e)
    ensures b == [] ==> a + b + c == a + c
    ensures d == [] ==> a + b + (c + d + e) == a + b + (c + e) == (a + b + c) + e
  {
  }

  lemma RisingParts(a: seq<(int, int)>, x: (int, int), b: seq<(int, int)>)
    ensures Rising(a + [x] + b) <==>
            Rising(a) && Rising(b) && RowBelow(a, x.0) && RowAbove(b, x.0)
  {
    var r := a + [x] + b;
    assert r[..|a|] == a && r[|a|] == x && r[|a| + 1..] == b;
    if Rising(r) {
      assert Rising(r[..|a|]) && Rising(r[|a| + 1..]);
      assert forall i :: 0 <= i < |a| ==> a[i] == r[i];
      assert forall i :: 0 <= i < |b| ==> b[i] == r[|a| + 1 + i];
    }
    if Rising(a) && Rising(b) && RowBelow(a, x.0) && RowAbove(b, x.0) {
      forall i, j | 0 <= i < j < |r| ensures r[i].0 < r[j].0 {
        if i < |a| { assert r[i] in a; }
        if j > |a| { assert r[j] == b[j - |a| - 1] && r[j] in b; }
      }
    }
  }

  lemma {:induction false} RowLists<Id>(t: Tree<Id>)
    ensures forall e :: e in Row(t) ==> e.0 in Blocks(t)
    ensures forall k :: k in Blocks(t) ==> (k, Blocks(t)[k]) in Row(t)
    decreases t
  {
    if t.Br? {
      RowLists(t.left);
      RowLists(t.right);
      BlocksOf(t);
      forall k | k in Blocks(t) ensures (k, Blocks(t)[k]) in Row(t) {
        var e := (k, Blocks(t)[k]);
        if k in Blocks(t.right) { assert e in Row(t.right); }
        else if k == t.base { assert e == (t.base, t.size); }
        else { assert e in Row(t.left); }
      }
    }
  }

  ghost predicate RowBelow(r: seq<(int, int)>, x: int) {
    forall e :: e in r ==> e.0 < x
  }

  ghost predicate RowAbove(r: seq<(int, int)>, x: int) {
    forall e :: e in r ==> x < e.0
  }

  /** What bounds the entries of a row bounds the addresses of the blocks, and conversely. */
  lemma {:induction false} RowBounds<Id>(t: Tree<Id>, x: int)
    ensures RowBelow(Row(t), x) ==> forall k :: k in Blocks(t) ==> k < x
    ensures RowAbove(Row(t), x) ==> forall k :: k in Blocks(t) ==> x < k
  {
    RowLists(t);
    hide Row, Blocks;
    forall k | k in Blocks(t)
      ensures (RowBelow(Row(t), x) ==> k < x) && (RowAbove(Row(t), x) ==> x < k)
    {
      assert (k, Blocks(t)[k]) in Row(t);
    }
  }

  lemma {:induction false} KeyBounds<Id>(t: Tree<Id>, x: int)
    ensures (forall k :: k in Blocks(t) ==> k < x) ==> RowBelow(Row(t), x)
    ensures (forall k :: k in Blocks(t) ==> x < k) ==> RowAbove(Row(t), x)
  {
    RowLists(t);
    hide Row, Blocks;
  }

  /** A tree is in order exactly when its row rises. */
  lemma {:induction false} RowOrdered<Id>(t: Tree<Id>)
    ensures Ordered(t) <==> Rising(Row(t))
    decreases t
  {
    if t.Br? {
      hide Rising, Blocks, RowBelow, RowAbove;
      RowOrdered(t.left);
      RowOrdered(t.right);
      RisingParts(Row(t.left), (t.base, t.size), Row(t.right));
      if Ordered(t) {
        KeyBounds(t.left, t.base);
        KeyBounds(t.right, t.base);
      }
      if Rising(Row(t)) {
        RowBounds(t.left, t.base);
        RowBounds(t.right, t.base);
      }
    }
  }

  /** The row of a tree in order lists its blocks. */
  lemma {:induction false} RowBlocks<Id>(t: Tree<Id>, e: (int, int))
    requires Ordered(t)
    ensures e in Row(t) <==> e.0 in Blocks(t) && Blocks(t)[e.0] == e.1
    decreases t
  {
    RowLists(t);
    if t.Br? {
      RowBlocks(t.left, e);
      RowBlocks(t.right, e);
      KeySide(t, e.0);
    }
  }

  /** Rising rows with the same entries are the same. */
  lemma {:induction false} RisingUnique(a: seq<(int, int)>, b: seq<(int, int)>)
    requires Rising(a) && Rising(b) && forall e :: e in a <==> e in b
    ensures a == b
    decreases |a|
  {
    assert b != [] ==> b[0] in b;
    if a != [] {
      assert a[0] in a && b != [];
      var i :| 0 <= i < |a| && a[i] == b[0];
      var j :| 0 <= j < |b| && b[j] == a[0];
      assert i == 0;
      forall e ensures e in a[1..] <==> e in b[1..] {
        assert e in a <==> e == a[0] || e in a[1..];
        assert e in b <==> e == b[0] || e in b[1..];
      }
      RisingUnique(a[1..], b[1..]);
    }
  }

  /** Where the new block fits between the two sides of the path, every turn is the one a search would make. */
  lemma {:induction false} SidesTurn<Id>(s: Tree<Id>, u: Tree<Id>, base: int)
    requires Ordered(s) && base !in Blocks(s) && Follows(s, u, base)
    requires RowBelow(Before(s, u, base), base) && RowAbove(After(s, u, base), base)
    ensures SamePath(s, u, base)
    decreases s
  {
    if s.Br? {
      KeySide(s, base);
      KeySide(s, s.base);
      var e := (u.base, u.size);
      if base < s.base {
        assert e in After(s, u, base);
        assert forall x :: x in After(s.left, u.left, base) ==> x in After(s, u, base);
      } else {
        assert e in Before(s, u, base);
        assert forall x :: x in Before(s.right, u.right, base) ==> x in Before(s, u, base);
      }
      SidesTurn(Toward(s, base), Toward(u, base), base);
    }
  }

  /**
    The exact condition for the finished tree to be the right one, that is, to be in order and to hold
    the blocks of `d` and the new one: the nodes strung together read like `d` from left to right, and
    no turn of the path has become a wrong one.
   */
  lemma {:induction false} AlongExact<Id>(s: Tree<Id>, u: Tree<Id>, d: Tree<Id>, base: int, size: int, nu: Id)
    requires Ordered(s) && base !in Blocks(s) && Follows(s, u, base) && Positive(u)
    requires Ordered(d) && base !in Blocks(d) && size != 0
    ensures var w := Along(s, u, base, size, nu);
            Ordered(w) && Blocks(w) == Blocks(d)[base := size] <==> Row(u) == Row(d) && SamePath(s, u, base)
  {
    hide Blocks, Ordered, Positive, Row, Rising, Before, After, Along;
    var w := Along(s, u, base, size, nu);
    if Row(u) == Row(d) && SamePath(s, u, base) {
      RowOrdered(u);
      RowOrdered(d);
      SameRow(u, d);
      AlongIsInsert(s, u, base, size, nu);
      InsertRefinesMap(u, base, size, nu);
    }
    if Ordered(w) && Blocks(w) == Blocks(d)[base := size] {
      AlongRow(s, u, base, size, nu);
      RowOrdered(w);
      var p, q := Before(s, u, base), After(s, u, base);
      RisingParts(p, (base, size), q);
      SidesTurn(s, u, base);
      RisingRest(p, (base, size), q);
      RowOrdered(d);
      forall e ensures e in p + q <==> e in Row(d) {
        RowBlocks(w, e);
        RowBlocks(d, e);
        assert e in p ==> e.0 < base;
        assert e in q ==> base < e.0;
      }
      RisingUnique(p + q, Row(d));
    }
  }

  lemma RisingRest(a: seq<(int, int)>, x: (int, int), b: seq<(int, int)>)
    requires Rising(a + [x] + b)
    ensures Rising(a + b)
  {
    var r, w := a + b, a + [x] + b;
    forall i, j | 0 <= i < j < |r| ensures r[i].0 < r[j].0 {
      assert r[i] == w[if i < |a| then i else i + 1];
      assert r[j] == w[if j < |a| then j else j + 1];
    }
  }

  lemma {:induction false} SameRow<Id>(t: Tree<Id>, u: Tree<Id>)
    requires Ordered(t) && Ordered(u) && Row(t) == Row(u)
    ensures Blocks(t) == Blocks(u)
  {
    hide Blocks, Ordered, Row;
    forall k ensures k in Blocks(t) <==> k in Blocks(u) {
      if k in Blocks(t) { RowBlocks(t, (k, Blocks(t)[k])); RowBlocks(u, (k, Blocks(t)[k])); }
      if k in Blocks(u) { RowBlocks(u, (k, Blocks(u)[k])); RowBlocks(t, (k, Blocks(u)[k])); }
    }
    forall k | k in Blocks(t) ensures Blocks(t)[k] == Blocks(u)[k] {
      RowBlocks(t, (k, Blocks(t)[k]));
      RowBlocks(u, (k, Blocks(t)[k]));
    }
  }

  // ---------------------------------------------------------------- what is strung together

  lemma {:induction false} SubHeights<Id>(t: Tree<Id>, x: Id)
    ensures Positive(t) ==> Positive(Sub(t, x))
    ensures NotAbove(t) ==> NotAbove(Sub(t, x))
    decreases t
  {
    if t.Br? && t.id != x {
      SubHeights(t.left, x);
      SubHeights(t.right, x);
    }
  }

  lemma {:induction false} StrungParts<Id>(s: Tree<Id>, d: Tree<Id>, z: Tree<Id>, base: int)
    requires Ids(s) <= Ids(z) && Ids(d) <= Ids(z) && Positive(d) && Positive(z)
    ensures Ids(Strung(s, d, z, base)) <= Ids(z) && Positive(Strung(s, d, z, base))
    decreases s
  {
    if s.Br? {
      var c := CellAt(d, z, s.id);
      SubHeights(d, s.id);
      SubHeights(z, s.id);
      if c.left.Br? { SubHeights(d, c.left.id); }
      if c.right.Br? { SubHeights(d, c.right.id); }
      StrungParts(Toward(s, base), d, z, base);
    }
  }

  /** Where the drawn tree still has the path, the nodes are strung together as they are. */
  lemma {:induction false} StrungSame<Id>(s: Tree<Id>, v: Tree<Id>, d: Tree<Id>, z: Tree<Id>, base: int)
    requires SamePath(s, v, base) && Distinct(d) && Ids(s) <= Ids(z) && (v.Br? ==> Sub(d, v.id) == v)
    ensures Strung(s, d, z, base) == v
    decreases s
  {
    if s.Br? {
      SubDistinct(d, v.id);
      StrungSame(Toward(s, base), Toward(v, base), d, z, base);
    }
  }

  /** Every node of `u` holds the block that the draw left in it. */
  ghost predicate HoldsCells<Id>(u: Tree<Id>, d: Tree<Id>, z: Tree<Id>) {
    u.Br? ==>
      && var c := CellAt(d, z, u.id);
      && c.Br? && u.base == c.base && u.size == c.size
      && HoldsCells(u.left, d, z) && HoldsCells(u.right, d, z)
  }

  lemma {:induction false} SubCells<Id>(v: Tree<Id>, d: Tree<Id>, z: Tree<Id>)
    requires Distinct(d) && (v.Br? ==> Sub(d, v.id) == v)
    ensures HoldsCells(v, d, z)
    decreases v
  {
    if v.Br? {
      SubDistinct(d, v.id);
      SubCells(v.left, d, z);
      SubCells(v.right, d, z);
    }
  }

  lemma {:induction false} StrungCells<Id>(s: Tree<Id>, d: Tree<Id>, z: Tree<Id>, base: int)
    requires Ids(s) <= Ids(z) && Distinct(d)
    ensures HoldsCells(Strung(s, d, z, base), d, z)
    decreases s
  {
    if s.Br? {
      var c := CellAt(d, z, s.id);
      SubCells(Hung(d, c.left), d, z);
      SubCells(Hung(d, c.right), d, z);
      StrungCells(Toward(s, base), d, z, base);
    }
  }

  lemma {:induction false} CellInBlocks<Id>(u: Tree<Id>, d: Tree<Id>, z: Tree<Id>, x: Id)
    requires HoldsCells(u, d, z) && x in Ids(u)
    ensures CellAt(d, z, x).Br? && CellAt(d, z, x).base in Blocks(u)
    decreases u
  {
    if x in Ids(u.left) { CellInBlocks(u.left, d, z, x); }
    else if x in Ids(u.right) { CellInBlocks(u.right, d, z, x); }
  }

  /** Nodes strung together in order are different nodes. */
  lemma {:induction false} OrderedDistinct<Id>(u: Tree<Id>, d: Tree<Id>, z: Tree<Id>)
    requires HoldsCells(u, d, z) && Ordered(u)
    ensures Distinct(u)
    decreases u
  {
    if u.Br? {
      OrderedDistinct(u.left, d, z);
      OrderedDistinct(u.right, d, z);
      if u.id in Ids(u.left) { CellInBlocks(u.left, d, z, u.id); }
      if u.id in Ids(u.right) { CellInBlocks(u.right, d, z, u.id); }
      forall x | x in Ids(u.left) && x in Ids(u.right) ensures false {
        CellInBlocks(u.left, d, z, x);
        CellInBlocks(u.right, d, z, x);
      }
    }
  }

  /** The heights below the path bound the finished tree's. */
  lemma {:induction false} StrungNotAbove<Id>(s: Tree<Id>, d: Tree<Id>, z: Tree<Id>, base: int, size: int, nu: Id)
    requires Ids(s) <= Ids(z) && NotAbove(d) && size != 0
    requires var u := Strung(s, d, z, base); Sound(u) && SamePath(s, u, base)
    ensures NotAbove(Insert(Strung(s, d, z, base), base, size, nu))
    decreases s
  {
    hide SettleInsert, Blocks, Ordered, NotAbove, RealHeight;
    var u := Strung(s, d, z, base);
    if s.Nil? {
      LeafNotAbove(Br(nu, Nil, base, size, 1, Nil));
    } else {
      var c := CellAt(d, z, s.id);
      if c.left.Br? { SubHeights(d, c.left.id); } else { NilNotAbove(c.left); }
      if c.right.Br? { SubHeights(d, c.right.id); } else { NilNotAbove(c.right); }
      SoundChildren(u);
      StrungNotAbove(Toward(s, base), d, z, base, size, nu);
      InsertKeepsOrder(u, base, size, nu);
      if base < s.base {
        SettleInsertKeeps(u.(left := Insert(u.left, base, size, nu)), base);
      } else {
        SettleInsertKeeps(u.(right := Insert(u.right, base, size, nu)), base);
      }
    }
  }

  lemma LeafNotAbove<Id>(t: Tree<Id>)
    requires t.Br? && t.left.Nil? && t.right.Nil? && t.height == 1
    ensures NotAbove(t)
  {
  }

  lemma NilNotAbove<Id>(t: Tree<Id>)
    requires t.Nil?
    ensures NotAbove(t)
  {
  }

  lemma SoundChildren<Id>(t: Tree<Id>)
    requires t.Br? && Sound(t)
    ensures Sound(t.left) && Sound(t.right)
  {
  }

  lemma {:induction false} InsertKeepsOrder<Id>(t: Tree<Id>, base: int, size: int, nu: Id)
    requires t.Br? && Sound(t) && base != t.base
    ensures base < t.base ==>
              Ordered(t.(left := Insert(t.left, base, size, nu))) && Positive(Insert(t.left, base, size, nu))
    ensures base > t.base ==>
              Ordered(t.(right := Insert(t.right, base, size, nu))) && Positive(Insert(t.right, base, size, nu))
  {
    hide SettleInsert;
    if base < t.base {
      InsertRefinesMap(t.left, base, size, nu);
      GraftLeft(t, Insert(t.left, base, size, nu));
    } else {
      InsertRefinesMap(t.right, base, size, nu);
      GraftRight(t, Insert(t.right, base, size, nu));
    }
  }
}
