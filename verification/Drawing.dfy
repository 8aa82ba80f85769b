/**
  What drawing the storage of a node from the tree does to the search path an insertion has already come
  down: when the insertion still ends up with the right tree, and how it goes wrong when it does not.
 */
module Drawing {
  import opened AvlTree
  import opened FreeBlocks
  import opened HeapModel
  import opened Unwinding

  /** The draw unlinks at most one node. */
  ghost predicate Draws<Id>(d: Tree<Id>, z: Tree<Id>) {
    && Distinct(d) && Distinct(z) && Positive(d) && Positive(z) && Ids(d) <= Ids(z)
    && forall x, y :: x in Ids(z) && y in Ids(z) && x !in Ids(d) && y !in Ids(d) ==> x == y
  }

  /** Links lead to what hangs from them. */
  lemma {:induction false} HungNodes<Id>(d: Tree<Id>, z: Tree<Id>, x: Id)
    requires Draws(d, z) && x in Ids(z)
    ensures var c := CellAt(d, z, x);
            && c.Br?
            && (c.left.Br? ==> c.left.id in Ids(d)) && (c.right.Br? ==> c.right.id in Ids(d))
  {
    if x in Ids(d) { SubDistinct(d, x); } else { SubDistinct(z, x); }
  }

  lemma {:induction false} OnPathBelow<Id>(t: Tree<Id>, base: int, s: Tree<Id>)
    requires OnPath(t, base, s) && s.Br? && base != s.base
    ensures OnPath(t, base, Toward(s, base))
    decreases t
  {
    if s == t {
      assert OnPath(Toward(t, base), base, Toward(t, base));
    } else {
      OnPathBelow(Toward(t, base), base, s);
    }
  }

  lemma {:induction false} OnPathFacts<Id>(t: Tree<Id>, base: int, s: Tree<Id>)
    requires OnPath(t, base, s) && Sound(t) && Distinct(t)
    ensures Sound(s) && Distinct(s) && Ids(s) <= Ids(t)
    ensures forall k :: k in Blocks(s) ==> k in Blocks(t) && Blocks(s)[k] == Blocks(t)[k]
    decreases t
  {
    if s != t {
      OnPathFacts(Toward(t, base), base, s);
      forall k | k in Blocks(s) ensures k in Blocks(t) && Blocks(s)[k] == Blocks(t)[k] {
        KeySide(t, k);
      }
    }
  }

  lemma {:induction false} DeleteDropsOne<Id>(t: Tree<Id>, base: int)
    requires Distinct(t)
    ensures forall x, y :: x in Ids(t) && y in Ids(t) && x !in Ids(Delete(t, base)) && y !in Ids(Delete(t, base)) ==>
              x == y
    decreases t
  {
    hide SettleDelete, SettleInsert;
    if t.Br? {
      var m := if t.right.Br? then Leftmost(t.right) else t;
      DeleteDropsOne(t.left, base);
      DeleteDropsOne(t.right, base);
      SettlesKeepIds(t.(left := Delete(t.left, base)), base);
      SettlesKeepIds(t.(right := Delete(t.right, base)), base);
      if base == t.base && t.left.Br? && t.right.Br? {
        DeleteDropsOne(t.right, m.base);
        SettlesKeepIds(t.(base := m.base, size := m.size, right := Delete(t.right, m.base)), base);
      }
    }
  }

  lemma {:induction false} DrawShape<Id>(T: Tree<Id>, b: Tree<Id>)
    requires Sound(T) && Distinct(T) && b.Br? && b.base in Blocks(T) && Replaceable(T, b.base, b.base + DRAW)
    ensures Sound(Shrunk(T, b)) && Ids(Shrunk(T, b)) == Ids(T) && Draws(Drawn(T, b), Shrunk(T, b))
  {
    hide Carve, Delete, Blocks, Ordered, Positive, Replaceable, Ids, Distinct;
    var z := Shrunk(T, b);
    CarveRefinesMap(T, b.base, b.base + DRAW, b.size - DRAW);
    CarveKeepsIds(T, b.base, b.base + DRAW, b.size - DRAW);
    DeleteRefinesMap(z, b.base + DRAW);
    DeleteIds(z, b.base + DRAW);
    DeleteDropsOne(z, b.base + DRAW);
  }

  // ---------------------------------------------------------------- when the path is found again

  /**
    The insertion finds its way back up: strung together again, the nodes of the path and what hangs
    beside them read like the drawn tree from left to right, and no turn of the path has become a wrong
    one. The path itself may have moved in between.
   */
  ghost predicate Traceable<Id>(t: Tree<Id>, b: Tree<Id>, base: int)
    requires b.Br?
  {
    Row(Resumed(t, b, base)) == Row(Drawn(t, b)) && SamePath(t, Resumed(t, b, base), base)
  }

  /** Carving where the key is not changes nothing. */
  lemma {:induction false} CarveElsewhere<Id>(t: Tree<Id>, key: int, base: int, size: int)
    requires Ordered(t) && key !in Blocks(t)
    ensures Carve(t, key, base, size) == t
    decreases t
  {
    if t.Br? {
      KeySide(t, key);
      if key < t.base { CarveElsewhere(t.left, key, base, size); }
      else if key > t.base { CarveElsewhere(t.right, key, base, size); }
    }
  }

  /** Carving a tree carves both children. */
  lemma {:induction false} CarveChildren<Id>(t: Tree<Id>, key: int, base: int, size: int)
    requires Ordered(t) && t.Br?
    ensures var u := Carve(t, key, base, size);
            && u.Br? && u.id == t.id && u.height == t.height
            && u.left == Carve(t.left, key, base, size)
            && u.right == Carve(t.right, key, base, size)
            && (if key == t.base then u.base == base && u.size == size else u.base == t.base && u.size == t.size)
  {
    KeySide(t, key);
    if key >= t.base { CarveElsewhere(t.left, key, base, size); }
    if key <= t.base { CarveElsewhere(t.right, key, base, size); }
  }

  /** In a tree that only shrank a block the path is the same, if the block does not move past `base`. */
  lemma {:induction false} CarveKeepsPath<Id>(t: Tree<Id>, key: int, key': int, size: int, base: int)
    requires Ordered(t) && base !in Blocks(t) && base != key' && (base < key <==> base < key')
    ensures SamePath(t, Carve(t, key, key', size), base)
    decreases t
  {
    if t.Br? {
      KeySide(t, base);
      KeySide(t, t.base);
      CarveChildren(t, key, key', size);
      CarveKeepsPath(Toward(t, base), key, key', size, base);
    }
  }

  lemma OrderedChildren<Id>(t: Tree<Id>)
    requires t.Br? && Ordered(t)
    ensures Ordered(t.left) && Ordered(t.right)
    ensures forall k :: k in Blocks(t.left) || k in Blocks(t.right) ==> k in Blocks(t)
    ensures t.base in Blocks(t)
  {
  }

  lemma {:induction false} PathIsItself<Id>(t: Tree<Id>, base: int)
    requires base !in Blocks(t) && Ordered(t)
    ensures SamePath(t, t, base)
    decreases t
  {
    if t.Br? {
      OrderedChildren(t);
      PathIsItself(Toward(t, base), base);
    }
  }

  lemma {:induction false} SamePathTransitive<Id>(t: Tree<Id>, u: Tree<Id>, v: Tree<Id>, base: int)
    requires SamePath(t, u, base) && SamePath(u, v, base)
    ensures SamePath(t, v, base)
    decreases t
  {
    if t.Br? { SamePathTransitive(Toward(t, base), Toward(u, base), Toward(v, base), base); }
  }

  /** If the path is where it was, the insertion works on the drawn tree. */
  lemma {:induction false} SamePathTraceable<Id>(t: Tree<Id>, b: Tree<Id>, base: int)
    requires Distinct(t) && b.Br? && SamePath(t, Drawn(t, b), base)
    ensures Resumed(t, b, base) == Drawn(t, b) && Traceable(t, b, base)
  {
    CarveKeepsIds(t, b.base, b.base + DRAW, b.size - DRAW);
    DeleteIds(Shrunk(t, b), b.base + DRAW);
    StrungSame(t, Drawn(t, b), Drawn(t, b), Shrunk(t, b), base);
  }

  /** A draw that leaves something over never disturbs the path. */
  lemma {:induction false} PartialTraceable<Id>(t: Tree<Id>, b: Tree<Id>, base: int)
    requires Ordered(t) && Distinct(t) && b.Br? && b.size > DRAW
    requires base !in Blocks(t) && (base < b.base || b.base + DRAW < base)
    ensures Resumed(t, b, base) == Drawn(t, b) && Traceable(t, b, base)
  {
    CarveKeepsPath(t, b.base, b.base + DRAW, b.size - DRAW, base);
    SamePathTraceable(t, b, base);
  }

  /**
    The lean of `n` is put right by a single rotation, and the search path of `base` goes on to the inner
    grandchild: linking the two nodes again on the way back up undoes the rotation.
   */
  ghost predicate UndoneTurn<Id>(n: Tree<Id>, base: int) {
    && n.Br?
    && (|| (n.left.Br? && n.left.base < base < n.base && SettleDelete(n) == RotateRight(Measured(n)))
        || (n.right.Br? && n.base < base < n.right.base && SettleDelete(n) == RotateLeft(Measured(n))))
  }

  /**
    Deleting `key` turns no node that the search paths of `key` and `base` share, except that where they
    part there may be a turn that is undone.
   */
  ghost predicate Unturned<Id>(t: Tree<Id>, key: int, base: int) {
    t.Br? && key != t.base && base != t.base ==>
      && var n := if key < t.base then t.(left := Delete(t.left, key)) else t.(right := Delete(t.right, key));
      && if key < t.base <==> base < t.base then
           SettleDelete(n) == Measured(n) && Unturned(Toward(t, key), key, base)
         else
           SettleDelete(n) == Measured(n) || UndoneTurn(n, base)
  }

  /** The two nodes of a turn that is undone, strung together again. */
  lemma {:induction false} TurnUndoneRight<Id>(s: Tree<Id>, n: Tree<Id>, d: Tree<Id>, z: Tree<Id>, base: int)
    requires s.Br? && Ids(s) <= Ids(z) && Distinct(d) && base !in Blocks(s) && Ordered(s)
    requires n.Br? && n.id == s.id && n.base == s.base && n.size == s.size && n.left == s.left
    requires n.left.Br? && n.left.base < base < n.base && Sub(d, n.left.id) == RotateRight(Measured(n))
    ensures Row(Strung(s, d, z, base)) == Row(RotateRight(Measured(n))) && SamePath(s, Strung(s, d, z, base), base)
  {
    hide Row, Blocks, Ordered, Distinct, Ids;
    var x, m := s.left, Measured(n);
    var v := RotateRight(m);
    var y, g := v.right, x.right;
    assert v.id == x.id && v.base == x.base && v.left == x.left && y.id == s.id && y.base == s.base && y.left == g;
    OrderedChildren(s);
    OrderedChildren(x);
    PathIsItself(g, base);
    SubDistinct(d, v.id);
    SubDistinct(d, y.id);
    ChildIds(s);
    ChildIds(x);
    StrungSame(g, g, d, z, base);
    assert Strung(x, d, z, base) == v.(right := g);
    assert Strung(s, d, z, base) == y.(left := v.(right := g));
    TurnsBack(v, y, g);
  }

  lemma ChildIds<Id>(t: Tree<Id>)
    requires t.Br?
    ensures Ids(t.left) <= Ids(t) && Ids(t.right) <= Ids(t) && t.id in Ids(t)
  {
  }

  lemma TurnsBack<Id>(v: Tree<Id>, y: Tree<Id>, g: Tree<Id>)
    requires v.Br? && y.Br?
    ensures v.right == y && y.left == g ==> Row(y.(left := v.(right := g))) == Row(v)
    ensures v.left == y && y.right == g ==> Row(y.(right := v.(left := g))) == Row(v)
  {
    if v.right == y && y.left == g {
      Regroup(Row(v.left), [(v.base, v.size)], Row(g), [(y.base, y.size)], Row(y.right));
    }
    if v.left == y && y.right == g {
      Regroup(Row(y.left), [(y.base, y.size)], Row(g), [(v.base, v.size)], Row(v.right));
    }
  }

  lemma {:induction false} TurnUndoneLeft<Id>(s: Tree<Id>, n: Tree<Id>, d: Tree<Id>, z: Tree<Id>, base: int)
    requires s.Br? && Ids(s) <= Ids(z) && Distinct(d) && base !in Blocks(s) && Ordered(s)
    requires n.Br? && n.id == s.id && n.base == s.base && n.size == s.size && n.right == s.right
    requires n.right.Br? && n.base < base < n.right.base && Sub(d, n.right.id) == RotateLeft(Measured(n))
    ensures Row(Strung(s, d, z, base)) == Row(RotateLeft(Measured(n))) && SamePath(s, Strung(s, d, z, base), base)
  {
    hide Row, Blocks, Ordered, Distinct, Ids;
    var x, m := s.right, Measured(n);
    var v := RotateLeft(m);
    var y, g := v.left, x.left;
    assert v.id == x.id && v.base == x.base && v.right == x.right && y.id == s.id && y.base == s.base && y.right == g;
    OrderedChildren(s);
    OrderedChildren(x);
    PathIsItself(g, base);
    SubDistinct(d, v.id);
    SubDistinct(d, y.id);
    ChildIds(s);
    ChildIds(x);
    StrungSame(g, g, d, z, base);
    assert Strung(x, d, z, base) == v.(left := g);
    assert Strung(s, d, z, base) == y.(right := v.(left := g));
    TurnsBack(v, y, g);
  }

  /** A deletion off the path leaves it to be found again, if no node of the path turns for good. */
  lemma {:induction false} OffPathFound<Id>(s: Tree<Id>, key: int, d: Tree<Id>, z: Tree<Id>, base: int)
    requires Ordered(s) && base !in Blocks(s) && key != base && Unturned(s, key, base)
    requires forall r :: OnPath(s, base, r) && r.Br? ==> r.base != key
    requires Ids(s) <= Ids(z) && Distinct(d)
    requires Delete(s, key).Br? ==> Sub(d, Delete(s, key).id) == Delete(s, key)
    ensures Row(Strung(s, d, z, base)) == Row(Delete(s, key)) && SamePath(s, Strung(s, d, z, base), base)
    decreases s
  {
    hide SettleDelete, Ordered;
    if s.Br? {
      KeySide(s, base);
      OrderedChildren(s);
      assert OnPath(s, base, s);
      var v := Delete(s, key);
      var n := if key < s.base then s.(left := Delete(s.left, key)) else s.(right := Delete(s.right, key));
      if key < s.base <==> base < s.base {
        forall r | OnPath(Toward(s, base), base, r) && r.Br? ensures r.base != key {
          assert OnPath(s, base, r);
        }
        SubDistinct(d, v.id);
        OffPathFound(Toward(s, base), key, d, z, base);
      } else if SettleDelete(n) == Measured(n) {
        PathIsItself(Toward(s, base), base);
        StrungSame(s, v, d, z, base);
      } else if base < n.base {
        TurnUndoneRight(s, n, d, z, base);
      } else {
        TurnUndoneLeft(s, n, d, z, base);
      }
    }
  }

  lemma {:induction false} StrungPath<Id>(s: Tree<Id>, s': Tree<Id>, d: Tree<Id>, z: Tree<Id>, base: int)
    requires SamePath(s, s', base) && Ids(s) <= Ids(z) && Ids(s') <= Ids(z)
    ensures Strung(s, d, z, base) == Strung(s', d, z, base)
    decreases s
  {
    if s.Br? { StrungPath(Toward(s, base), Toward(s', base), d, z, base); }
  }

  /** A used-up node off the path is no trouble as long as its deletion turns no node of the path for good. */
  lemma {:induction false} UsedUpOffPath<Id>(t: Tree<Id>, b: Tree<Id>, base: int)
    requires Sound(t) && Distinct(t) && b.Br? && b.size == DRAW && b.base in Blocks(t)
    requires Replaceable(t, b.base, b.base + DRAW) && base !in Blocks(t) && (base < b.base || b.base + DRAW < base)
    requires (forall s :: OnPath(t, base, s) && s.Br? ==> s.base != b.base)
    requires Unturned(Shrunk(t, b), b.base + DRAW, base)
    ensures Traceable(t, b, base)
  {
    hide Ordered, Positive, Replaceable, Blocks, Delete, Unturned, Row;
    var u := Shrunk(t, b);
    CarveRefinesMap(t, b.base, b.base + DRAW, 0);
    CarveKeepsIds(t, b.base, b.base + DRAW, 0);
    CarveKeepsPath(t, b.base, b.base + DRAW, 0, base);
    CarvedOffPath(t, b.base, b.base + DRAW, base);
    DeleteIds(u, b.base + DRAW);
    OffPathFound(u, b.base + DRAW, Drawn(t, b), u, base);
    StrungPath(t, u, Drawn(t, b), u, base);
    SamePathTransitive(t, u, Resumed(t, b, base), base);
  }

  lemma {:induction false} CarvedOffPath<Id>(t: Tree<Id>, key: int, key': int, base: int)
    requires Sound(t) && key in Blocks(t) && Replaceable(t, key, key') && base !in Blocks(t) && base != key'
    requires key' != key && (base < key <==> base < key')
    requires forall s :: OnPath(t, base, s) && s.Br? ==> s.base != key
    ensures forall s :: OnPath(Carve(t, key, key', 0), base, s) && s.Br? ==> s.base != key'
    decreases t
  {
    forall s | OnPath(Carve(t, key, key', 0), base, s) && s.Br? ensures s.base != key' {
      CarvedPathNode(t, key, key', base, s);
    }
  }

  lemma {:induction false} CarvedPathNode<Id>(t: Tree<Id>, key: int, key': int, base: int, s: Tree<Id>)
    requires Ordered(t) && base !in Blocks(t) && base != key' && (base < key <==> base < key')
    requires forall k :: k in Blocks(t) ==> k != key'
    requires forall r :: OnPath(t, base, r) && r.Br? ==> r.base != key
    requires OnPath(Carve(t, key, key', 0), base, s) && s.Br?
    ensures s.base != key'
    decreases t
  {
    if t.Br? {
      KeySide(t, t.base);
      CarveChildren(t, key, key', 0);
      assert OnPath(t, base, t);
      if s != Carve(t, key, key', 0) {
        OrderedChildren(t);
        forall r | OnPath(Toward(t, base), base, r) && r.Br? ensures r.base != key {
          assert OnPath(t, base, r);
        }
        CarvedPathNode(Toward(t, base), key, key', base, s);
      }
    }
  }

  // ---------------------------------------------------------------- when an unlinked node is on the path

  lemma {:induction false} OnPathIds<Id>(t: Tree<Id>, base: int, u: Tree<Id>)
    requires Distinct(t) && OnPath(t, base, u)
    ensures Distinct(u) && Ids(u) <= Ids(t) && (u.Br? ==> Sub(t, u.id) == u)
    ensures t != u ==> t.Br? && Distinct(Toward(t, base)) && OnPath(Toward(t, base), base, u)
                       && Ids(u) <= Ids(Toward(t, base)) && t.id !in Ids(u)
    decreases t
  {
    if t != u { OnPathIds(Toward(t, base), base, u); }
  }

  /** An emptied node with at most one child is unlinked by its deletion. */
  lemma {:induction false} DeleteDrops<Id>(t: Tree<Id>, base: int, q: Tree<Id>)
    requires Ordered(t) && Distinct(t) && OnPath(t, base, q) && q.Br? && (q.left.Nil? || q.right.Nil?)
    ensures q.id !in Ids(Delete(t, q.base))
    decreases t
  {
    hide SettleDelete;
    OnPathIds(t, base, q);
    if t != q {
      PathKey(t, base, q);
      DeleteDrops(Toward(t, base), base, q);
      SettlesKeepIds(t.(left := Delete(t.left, q.base)), base);
      SettlesKeepIds(t.(right := Delete(t.right, q.base)), base);
    }
  }

  /** The block of a node below `t` on the path lies on the side the path takes. */
  lemma {:induction false} PathKey<Id>(t: Tree<Id>, base: int, q: Tree<Id>)
    requires Ordered(t) && OnPath(t, base, q) && q.Br? && t != q
    ensures q.base != t.base && (q.base < t.base <==> base < t.base)
    ensures Ordered(Toward(t, base)) && q.base in Blocks(Toward(t, base))
    decreases t
  {
    if Toward(t, base) == q {
      KeySide(q, q.base);
    } else {
      PathKey(Toward(t, base), base, q);
      KeySide(Toward(t, base), q.base);
    }
  }

  lemma {:induction false} EmptiedOnPath<Id>(t: Tree<Id>, base: int, b: Tree<Id>, key: int)
    requires Ordered(t) && OnPath(t, base, b) && b.Br?
    ensures OnPath(Carve(t, b.base, key, 0), base, b.(base := key, size := 0))
    decreases t
  {
    if t != b {
      PathKey(t, base, b);
      CarveChildren(t, b.base, key, 0);
      EmptiedOnPath(Toward(t, base), base, b, key);
    }
  }

  /** A node of the path is strung in again, with the block the draw left in it. */
  lemma {:induction false} PathStrung<Id>(s: Tree<Id>, d: Tree<Id>, z: Tree<Id>, base: int, q: Tree<Id>)
    requires Ids(s) <= Ids(z) && OnPath(s, base, q) && q.Br?
    ensures q.id in Ids(Strung(s, d, z, base))
    decreases s
  {
    if s != q { PathStrung(Toward(s, base), d, z, base, q); }
  }

  lemma {:induction false} CellInRow<Id>(u: Tree<Id>, d: Tree<Id>, z: Tree<Id>, x: Id)
    requires HoldsCells(u, d, z) && x in Ids(u)
    ensures var c := CellAt(d, z, x); c.Br? && (c.base, c.size) in Row(u)
    decreases u
  {
    if x in Ids(u.left) { CellInRow(u.left, d, z, x); }
    else if x in Ids(u.right) { CellInRow(u.right, d, z, x); }
  }

  /**
    A used-up node on the path, with at most one child, has been unlinked and is strung in again without
    any bytes: the tree is never the right one.
   */
  lemma {:induction false} UsedUpOnPath<Id>(t: Tree<Id>, b: Tree<Id>, base: int)
    requires Sound(t) && Distinct(t) && b.Br? && b.size == DRAW && b.base in Blocks(t)
    requires Replaceable(t, b.base, b.base + DRAW) && OnPath(t, base, b) && (b.left.Nil? || b.right.Nil?)
    ensures (b.base + DRAW, 0) in Row(Resumed(t, b, base)) && !Traceable(t, b, base)
  {
    hide Ordered, Positive, Replaceable, Blocks, Delete, Row, Ids, Distinct, OnPath;
    var z, d, q := Shrunk(t, b), Drawn(t, b), b.(base := b.base + DRAW, size := 0);
    DrawShape(t, b);
    EmptiedOnPath(t, base, b, b.base + DRAW);
    OnPathIds(z, base, q);
    DeleteDrops(z, base, q);
    DeleteRefinesMap(z, b.base + DRAW);
    PathStrung(t, d, z, base, b);
    StrungCells(t, d, z, base);
    CellInRow(Resumed(t, b, base), d, z, b.id);
    RowBlocks(d, (b.base + DRAW, 0));
  }

  lemma {:induction false} RotateCells<Id>(t: Tree<Id>, d: Tree<Id>, z: Tree<Id>)
    requires HoldsCells(t, d, z)
    ensures HoldsCells(RotateRight(t), d, z) && HoldsCells(RotateLeft(t), d, z)
  {
    if t.Br? && t.left.Br? { assert HoldsCells(RotateRight(t).right, d, z); }
    if t.Br? && t.right.Br? { assert HoldsCells(RotateLeft(t).left, d, z); }
  }

  lemma {:induction false} SettleCells<Id>(t: Tree<Id>, d: Tree<Id>, z: Tree<Id>)
    requires HoldsCells(t, d, z)
    ensures HoldsCells(SettleDelete(t), d, z)
  {
    hide RotateRight, RotateLeft;
    var n := Measured(t);
    assert HoldsCells(n, d, z);
    if n.Br? {
      RotateCells(n, d, z);
      RotateCells(n.left, d, z);
      RotateCells(n.right, d, z);
      RotateCells(n.(left := RotateLeft(n.left)), d, z);
      RotateCells(n.(right := RotateRight(n.right)), d, z);
    }
  }

  lemma {:induction false} SubCell<Id>(u: Tree<Id>, d: Tree<Id>, z: Tree<Id>, x: Id)
    requires HoldsCells(u, d, z) && x in Ids(u)
    ensures var c := CellAt(d, z, x); c.Br? && Sub(u, x).base == c.base && Sub(u, x).size == c.size
    decreases u
  {
    if x != u.id {
      if x in Ids(u.left) { SubCell(u.left, d, z, x); } else { SubCell(u.right, d, z, x); }
    }
  }

  /** Settling moves nodes, not blocks between nodes. */
  lemma {:induction false} SettleKeepsBlock<Id>(t: Tree<Id>, x: Id)
    requires Distinct(t) && x in Ids(t)
    ensures var c := Sub(SettleDelete(t), x); c.Br? && c.base == Sub(t, x).base && c.size == Sub(t, x).size
  {
    hide SettleDelete, SettleInsert;
    SubCells(t, t, t);
    SettleCells(t, t, t);
    SettlesKeepIds(t, 0);
    SubCell(SettleDelete(t), t, t, x);
  }

  lemma {:induction false} LeastSub<Id>(t: Tree<Id>)
    requires t.Br? && Distinct(t)
    ensures var m := Leftmost(t); m.id in Ids(t) && Sub(t, m.id) == m
    decreases t
  {
    if t.left.Br? { LeastSub(t.left); }
  }

  lemma {:induction false} LeastGoes<Id>(t: Tree<Id>)
    requires t.Br? && Ordered(t) && Distinct(t)
    ensures Leftmost(t).id in Ids(t) && Leftmost(t).id !in Ids(Delete(t, Leftmost(t).base))
    decreases t
  {
    hide SettleDelete, SettleInsert;
    LeftmostIsLeast(t);
    if t.left.Br? {
      LeastGoes(t.left);
      LeftmostIsLeast(t.left);
      SettlesKeepIds(t.(left := Delete(t.left, Leftmost(t).base)), 0);
    }
  }

  lemma ChildrenDistinct<Id>(t: Tree<Id>)
    requires t.Br? && Distinct(t)
    ensures Distinct(t.left) && Distinct(t.right) && t.id !in Ids(t.left) && t.id !in Ids(t.right)
    ensures Ids(t.left) !! Ids(t.right) && Ids(t) == Ids(t.left) + {t.id} + Ids(t.right)
  {
  }

  lemma {:induction false} MovedUp<Id>(q: Tree<Id>)
    requires Distinct(q) && q.Br? && q.left.Br? && q.right.Br?
    requires var m := Leftmost(q.right); m.id in Ids(q.right) && m.id !in Ids(Delete(q.right, m.base))
    ensures var m, c := Leftmost(q.right), Sub(Delete(q, q.base), q.id);
            m.id !in Ids(Delete(q, q.base)) && c.Br? && c.base == m.base && c.size == m.size
  {
    hide SettleDelete, SettleInsert, Leftmost;
    var m := Leftmost(q.right);
    DeleteIds(q.right, m.base);
    var u := q.(base := m.base, size := m.size, right := Delete(q.right, m.base));
    SettlesKeepIds(u, 0);
    SettleKeepsBlock(u, q.id);
  }

  lemma {:induction false} KeptAbove<Id>(t: Tree<Id>, wentLeft: bool, v: Tree<Id>, x: Id)
    requires Distinct(t) && t.Br? && Distinct(v) && Ids(v) <= Ids(if wentLeft then t.left else t.right) && x in Ids(v)
    ensures var u := if wentLeft then t.(left := v) else t.(right := v);
            var c := Sub(SettleDelete(u), x);
            && c.Br? && c.base == Sub(v, x).base && c.size == Sub(v, x).size
            && Ids(SettleDelete(u)) == Ids(if wentLeft then t.right else t.left) + {t.id} + Ids(v)
  {
    hide SettleDelete, SettleInsert;
    var u := if wentLeft then t.(left := v) else t.(right := v);
    SettlesKeepIds(u, 0);
    SettleKeepsBlock(u, x);
  }

  /** The deletion of a node with two children unlinks its successor and moves the successor's block up. */
  lemma {:induction false} DeleteMovesUp<Id>(t: Tree<Id>, base: int, q: Tree<Id>)
    requires Ordered(t) && Distinct(t) && OnPath(t, base, q) && q.Br? && q.left.Br? && q.right.Br?
    ensures var m, c := Leftmost(q.right), Sub(Delete(t, q.base), q.id);
            m.id !in Ids(Delete(t, q.base)) && c.Br? && c.base == m.base && c.size == m.size
    decreases t
  {
    hide SettleDelete, SettleInsert, Leftmost, Ids, Distinct, Ordered, Sub;
    OnPathIds(t, base, q);
    OrderedChildren(t);
    ChildIds(t);
    if t == q {
      ChildrenDistinct(t);
      LeftmostIsLeast(q.right);
      LeastGoes(q.right);
      MovedUp(q);
    } else {
      PathKey(t, base, q);
      DeleteMovesUp(Toward(t, base), base, q);
      ChildrenDistinct(t);
      LeastSub(q.right);
      DeleteIds(Toward(t, base), q.base);
      ChildrenDistinct(q);
      KeptAbove(t, base < t.base, Delete(Toward(t, base), q.base), q.id);
    }
  }

  lemma {:induction false} TwiceInRow<Id>(u: Tree<Id>, d: Tree<Id>, z: Tree<Id>, x: Id, y: Id, e: (int, int))
    requires HoldsCells(u, d, z) && x in Ids(u) && y in Ids(u) && x != y
    requires forall w :: w == x || w == y ==> CellAt(d, z, w).Br? && (CellAt(d, z, w).base, CellAt(d, z, w).size) == e
    ensures multiset(Row(u))[e] >= 2
    decreases u
  {
    assert multiset(Row(u)) == multiset(Row(u.left)) + multiset{(u.base, u.size)} + multiset(Row(u.right));
    if x in Ids(u.left) { CellInRow(u.left, d, z, x); }
    if y in Ids(u.left) { CellInRow(u.left, d, z, y); }
    if x in Ids(u.right) { CellInRow(u.right, d, z, x); }
    if y in Ids(u.right) { CellInRow(u.right, d, z, y); }
    if x in Ids(u.left) && y in Ids(u.left) { TwiceInRow(u.left, d, z, x, y, e); }
    if x in Ids(u.right) && y in Ids(u.right) { TwiceInRow(u.right, d, z, x, y, e); }
  }

  lemma {:induction false} SubInside<Id>(t: Tree<Id>, q: Tree<Id>, x: Id)
    requires Distinct(t) && q.Br? && Sub(t, q.id) == q && x in Ids(q)
    ensures Sub(t, x) == Sub(q, x)
    decreases t
  {
    if t.id != q.id {
      if q.id in Ids(t.left) { SubInside(t.left, q, x); } else { SubInside(t.right, q, x); }
    }
  }

  lemma {:induction false} RisingOnce(r: seq<(int, int)>, e: (int, int))
    requires Rising(r)
    ensures multiset(r)[e] <= 1
    decreases |r|
  {
    if r != [] {
      assert r == [r[0]] + r[1..];
      assert e == r[0] ==> e !in r[1..];
      RisingOnce(r[1..], e);
    }
  }

  /**
    A used-up node with two children took over its successor's block. With both on the path, the
    successor's node is strung in again too, and the tree holds that block twice.
   */
  lemma {:induction false} SuccessorOnPath<Id>(t: Tree<Id>, b: Tree<Id>, base: int)
    requires Sound(t) && Distinct(t) && b.Br? && b.size == DRAW && b.base in Blocks(t)
    requires Replaceable(t, b.base, b.base + DRAW) && OnPath(t, base, b) && b.left.Br? && b.right.Br?
    requires OnPath(t, base, Leftmost(b.right))
    ensures var m := Leftmost(b.right); multiset(Row(Resumed(t, b, base)))[(m.base, m.size)] >= 2
    ensures !Traceable(t, b, base)
  {
    hide Ordered, Positive, Replaceable, Blocks, Delete, Row, Ids, Distinct, OnPath, Leftmost;
    var z, d, q := Shrunk(t, b), Drawn(t, b), b.(base := b.base + DRAW, size := 0);
    var m := Leftmost(b.right);
    DrawShape(t, b);
    EmptiedOnPath(t, base, b, b.base + DRAW);
    DeleteMovesUp(z, base, q);
    OnPathIds(z, base, q);
    SubDistinct(z, q.id);
    SubDistinct(z, q.right.id);
    LeastSub(q.right);
    SubInside(z, q.right, m.id);
    assert CellAt(d, z, m.id) == m && CellAt(d, z, b.id) == Sub(d, b.id);
    PathStrung(t, d, z, base, b);
    PathStrung(t, d, z, base, m);
    StrungCells(t, d, z, base);
    TwiceInRow(Resumed(t, b, base), d, z, b.id, m.id, (m.base, m.size));
    DeleteRefinesMap(z, b.base + DRAW);
    RowOrdered(d);
    RisingOnce(Row(d), (m.base, m.size));
  }

  // ---------------------------------------------------------------- the whole insertion

  /** Every draw from a tree in order leaves one in order, of the same nodes and with the storage gone. */
  lemma {:induction false} DrawnRefines<Id>(T: Tree<Id>, b: Tree<Id>, lo: int, hi: int)
    requires Sound(T) && NotAbove(T) && Tidy(Blocks(T), lo, hi) && Serves(T, b)
    ensures b.id in Ids(T) && b.base in Blocks(T) && Blocks(T)[b.base] == b.size
    ensures Replaceable(T, b.base, b.base + DRAW) && b.base + DRAW !in Blocks(T)
    ensures Sound(Drawn(T, b)) && NotAbove(Drawn(T, b)) && Blocks(Drawn(T, b)) == Shaved(Blocks(T), b.base, DRAW)
    ensures Ids(Drawn(T, b)) <= Ids(T) && (Distinct(T) ==> Distinct(Drawn(T, b)))
  {
    hide Carve, Delete, Blocks, Ordered, Positive, NotAbove, Replaceable, BestFit, Shaved;
    BestFitFits(T, DRAW);
    ShavedReplaceable(T, lo, hi, b.base, DRAW);
    CarvedRefines(T, b.base, DRAW);
    CarveKeepsIds(T, b.base, b.base + DRAW, b.size - DRAW);
    DeleteIds(Carve(T, b.base, b.base + DRAW, b.size - DRAW), b.base + DRAW);
  }

  /** A range clear of the old blocks is clear of them after one has shrunk or gone. */
  lemma {:induction false} ShavedClear(m: map<int, int>, lo: int, hi: int, b: int, base: int, size: int)
    requires Tidy(m, lo, hi) && b in m && m[b] >= DRAW && size > 0 && !Overlapped(m, base, size)
    ensures !Overlapped(Shaved(m, b, DRAW), base, size) && base !in Shaved(m, b, DRAW)
    ensures base !in m && (base < b || b + DRAW <= base) && (m[b] > DRAW ==> base != b + DRAW)
  {
    assert forall k :: k in m ==> !(k < base + size && base < k + m[k]);
    var m1 := Shaved(m, b, DRAW);
    assert !(b < base + size && base < b + m[b]);
    forall k | k in m1 ensures !(k < base + size && base < k + m1[k]) {
      if k != b + DRAW { assert k in m && m[k] == m1[k]; }
    }
  }

  lemma {:induction false} AddedBlock(m: map<int, int>, base: int, size: int)
    requires Separate(m) && size > 0 && !Overlapped(m, base, size) && base !in m
    ensures Disjoint(m[base := size])
    ensures forall x :: InFree(m[base := size], x) <==> InFree(m, x) || base <= x < base + size
  {
    var m' := m[base := size];
    forall k | k in m ensures k + m[k] <= base || base + size <= k {
      assert !(k < base + size && base < k + m[k]);
    }
    forall x ensures InFree(m', x) <==> InFree(m, x) || base <= x < base + size {
      if InFree(m, x) {
        var k :| k in m && k <= x < k + m[k];
        assert k in m' && m'[k] == m[k];
      }
      if base <= x < base + size { assert base in m' && m'[base] == size; }
      if InFree(m', x) {
        var k :| k in m' && k <= x < k + m'[k];
        if k != base { assert k in m; }
      }
    }
  }

  lemma {:induction false} ResumedShape<Id>(T: Tree<Id>, b: Tree<Id>, base: int)
    requires Sound(T) && Distinct(T) && b.Br? && b.base in Blocks(T) && Replaceable(T, b.base, b.base + DRAW)
    ensures var u := Resumed(T, b, base);
            && Follows(T, u, base) && Positive(u) && Ids(u) <= Ids(T) && HoldsCells(u, Drawn(T, b), Shrunk(T, b))
  {
    DrawShape(T, b);
    StrungFollows(T, Drawn(T, b), Shrunk(T, b), base);
    StrungParts(T, Drawn(T, b), Shrunk(T, b), base);
    StrungCells(T, Drawn(T, b), Shrunk(T, b), base);
  }

  /**
    Whatever the draw does, the finished tree is the right one, in order and with the old blocks less the
    drawn bytes plus the new block, if and only if the draw is traceable.
   */
  lemma {:induction false} DrawingExact<Id>(T: Tree<Id>, b: Tree<Id>, lo: int, hi: int, base: int, size: int, nu: Id)
    requires Sound(T) && NotAbove(T) && Distinct(T) && Tidy(Blocks(T), lo, hi) && Serves(T, b)
    requires size > 0 && !Overlapped(Blocks(T), base, size)
    ensures var w := Along(T, Resumed(T, b, base), base, size, nu);
            && b.base in Blocks(T)
            && (Ordered(w) && Blocks(w) == Shaved(Blocks(T), b.base, DRAW)[base := size] <==> Traceable(T, b, base))
  {
    hide Along, Resumed, Drawn, Blocks, Ordered, Positive, NotAbove, BestFit, Replaceable, Overlapped, Shaved, Row;
    DrawnRefines(T, b, lo, hi);
    ShavedClear(Blocks(T), lo, hi, b.base, base, size);
    ResumedShape(T, b, base);
    AlongExact(T, Resumed(T, b, base), Drawn(T, b), base, size, nu);
  }

  /** A traceable draw works on different nodes in order, and comes up as a search in them would. */
  lemma {:induction false} TraceableSearches<Id>(T: Tree<Id>, b: Tree<Id>, lo: int, hi: int, base: int, size: int,
                                                 nu: Id)
    requires Sound(T) && NotAbove(T) && Distinct(T) && Tidy(Blocks(T), lo, hi) && Serves(T, b)
    requires size > 0 && !Overlapped(Blocks(T), base, size) && Traceable(T, b, base)
    ensures var u := Resumed(T, b, base);
            && Sound(u) && Distinct(u) && NotAbove(Insert(u, base, size, nu))
            && Along(T, u, base, size, nu) == Insert(u, base, size, nu)
            && AlongFaults(T, u, base, size, nu) == InsertFaults(u, base, size, nu)
            && Blocks(u) == Blocks(Drawn(T, b))
  {
    hide Along, AlongFaults, Insert, InsertFaults, Drawn, Blocks, Ordered, Positive, NotAbove, BestFit, Replaceable;
    hide Overlapped, Shaved, Row;
    var u := Resumed(T, b, base);
    DrawnRefines(T, b, lo, hi);
    ShavedClear(Blocks(T), lo, hi, b.base, base, size);
    DrawShape(T, b);
    ResumedShape(T, b, base);
    RowOrdered(u);
    RowOrdered(Drawn(T, b));
    SameRow(u, Drawn(T, b));
    OrderedDistinct(u, Drawn(T, b), Shrunk(T, b));
    AlongIsInsert(T, u, base, size, nu);
    StrungNotAbove(T, Drawn(T, b), Shrunk(T, b), base, size, nu);
  }

  /**
    After a traceable draw the finished tree is in order, its blocks do not overlap, and they are the old
    ones less the drawn bytes, plus the new block.
   */
  lemma {:induction false} DrawingInsertExact<Id>(T: Tree<Id>, b: Tree<Id>, lo: int, hi: int, base: int,
                                                  size: int, nu: Id)
    requires Sound(T) && NotAbove(T) && Distinct(T) && Tidy(Blocks(T), lo, hi) && Serves(T, b)
    requires size > 0 && !Overlapped(Blocks(T), base, size) && Traceable(T, b, base)
    ensures var w := Insert(Resumed(T, b, base), base, size, nu);
            && Sound(w) && NotAbove(w) && Disjoint(Blocks(w))
            && b.base in Blocks(T) && Blocks(w) == Shaved(Blocks(T), b.base, DRAW)[base := size]
            && forall x :: InFree(Blocks(w), x) <==>
                 (InFree(Blocks(T), x) && !(b.base <= x < b.base + DRAW)) || base <= x < base + size
  {
    hide Insert, Along, AlongFaults, InsertFaults, Resumed, Drawn, Blocks, Ordered, Positive, NotAbove, BestFit;
    hide Replaceable, Overlapped, Traceable;
    DrawnRefines(T, b, lo, hi);
    TraceableSearches(T, b, lo, hi, base, size, nu);
    ShavedTidy(Blocks(T), lo, hi, b.base, DRAW);
    ShavedClear(Blocks(T), lo, hi, b.base, base, size);
    InsertRefinesMap(Resumed(T, b, base), base, size, nu);
    var m1 := Shaved(Blocks(T), b.base, DRAW);
    AddedBlock(m1, base, size);
    var w := Insert(Resumed(T, b, base), base, size, nu);
    assert Blocks(w) == m1[base := size];
    forall x ensures InFree(Blocks(w), x) <==>
                     (InFree(Blocks(T), x) && !(b.base <= x < b.base + DRAW)) || base <= x < base + size {
      assert InFree(m1, x) <==> InFree(Blocks(T), x) && !(b.base <= x < b.base + DRAW);
    }
  }

  /** What a used-up node on the path leaves in the finished tree. */
  lemma {:induction false} UsedUpFinishes<Id>(T: Tree<Id>, b: Tree<Id>, lo: int, hi: int, base: int, size: int, nu: Id)
    requires Sound(T) && NotAbove(T) && Distinct(T) && Tidy(Blocks(T), lo, hi) && Serves(T, b)
    requires b.size == DRAW && OnPath(T, base, b) && (b.left.Br? && b.right.Br? ==> OnPath(T, base, Leftmost(b.right)))
    ensures !Traceable(T, b, base)
    ensures var r := Row(Along(T, Resumed(T, b, base), base, size, nu));
            if b.left.Nil? || b.right.Nil? then (b.base + DRAW, 0) in r
            else var m := Leftmost(b.right); multiset(r)[(m.base, m.size)] >= 2
  {
    hide Along, Resumed, Drawn, Blocks, Ordered, Positive, NotAbove, BestFit, Replaceable, Shaved, Row, Leftmost;
    hide OnPath, Traceable, Tidy;
    var u := Resumed(T, b, base);
    DrawnRefines(T, b, lo, hi);
    ResumedShape(T, b, base);
    AlongRow(T, u, base, size, nu);
    if b.left.Nil? || b.right.Nil? {
      UsedUpOnPath(T, b, base);
    } else {
      SuccessorOnPath(T, b, base);
      Squeezed(Before(T, u, base), (base, size), After(T, u, base));
    }
  }

  lemma Squeezed<T>(a: seq<T>, x: T, b: seq<T>)
    ensures multiset(a + [x] + b) == multiset(a + b) + multiset{x}
  {
  }
}
