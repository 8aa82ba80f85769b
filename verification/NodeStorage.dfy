/**
  Re-entrancy. On the kernel heap the storage of a new tree node is itself allocated from the tree
  that is being changed: the insertion has already chosen its path by the old blocks when, at the
  bottom, a block somewhere in the same tree shrinks, possibly one of its own ancestors, or is
  used up and deleted; only then does the insertion link and rebalance its way back up. Whatever the
  deletion did, the nodes end up as `Along` over the nodes strung together again, if those are all
  different, and otherwise no longer form a tree.
 */
module NodeStorage {
  import opened AvlTree
  import opened AvlNodes
  import opened FreeBlocks
  import opened HeapModel
  import opened HeapArea
  import opened Unwinding
  import opened Drawing

  // ---------------------------------------------------------------- nodes as the draw left them

  function NodeOf(t: Tree<Node>): Node? {
    if t.Nil? then null else t.id
  }

  /** The node holds the block and the links of the root of `c`. */
  ghost predicate IsCell(x: Node, c: Tree<Node>)
    reads x
  {
    c.Br? && x.base == c.base && x.size == c.size && x.left == NodeOf(c.left) && x.right == NodeOf(c.right)
  }

  /** Outside `K` the nodes of `z` are as the draw left them, in the tree `d` or unlinked from it. */
  ghost predicate AsDrawn(d: Tree<Node>, z: Tree<Node>, K: set<Node>)
    reads Ids(z) - K
  {
    forall x :: x in Ids(z) && x !in K ==> IsCell(x, CellAt(d, z, x)) && (x in Ids(d) ==> x.height == Sub(d, x).height)
  }

  lemma {:induction false} RepCell(n: Node?, t: Tree<Node>, x: Node)
    requires Rep(n, t) && x in Ids(t)
    ensures IsCell(x, Sub(t, x)) && x.height == Sub(t, x).height
    decreases t
  {
    StoredHeights(n.left, t.left);
    StoredHeights(n.right, t.right);
    if x != t.id {
      if x in Ids(t.left) { RepCell(n.left, t.left, x); } else { RepCell(n.right, t.right, x); }
    }
  }

  /** A subtree of `d` away from `K` is still laid out. */
  lemma {:induction false} CellsRep(d: Tree<Node>, z: Tree<Node>, K: set<Node>, v: Tree<Node>)
    requires Distinct(d) && Ids(d) <= Ids(z) && AsDrawn(d, z, K)
    requires (v.Br? ==> Sub(d, v.id) == v) && Ids(v) !! K
    ensures Rep(NodeOf(v), v)
    decreases v
  {
    if v.Br? {
      SubDistinct(d, v.id);
      CellsRep(d, z, K, v.left);
      CellsRep(d, z, K, v.right);
      assert IsCell(v.id, CellAt(d, z, v.id));
    }
  }

  /** Whoever walks down a subtree of `d` that shares nodes with `K` meets one of them. */
  lemma {:induction false} CellsMeet(d: Tree<Node>, z: Tree<Node>, K: set<Node>, v: Tree<Node>, q: Tree<Node>)
    requires Distinct(d) && Ids(d) <= Ids(z) && AsDrawn(d, z, K)
    requires (v.Br? ==> Sub(d, v.id) == v) && Laid(NodeOf(v), q)
    ensures Ids(v) !! K || !(Ids(q) !! K)
    decreases v
  {
    if v.Br? && v.id !in K {
      SubDistinct(d, v.id);
      assert IsCell(v.id, CellAt(d, z, v.id));
      CellsMeet(d, z, K, v.left, q.left);
      CellsMeet(d, z, K, v.right, q.right);
    }
  }

  lemma {:induction false} RepLaid(n: Node?, t: Tree<Node>)
    requires Rep(n, t)
    ensures Laid(n, t)
    decreases t
  {
    if t.Br? {
      RepLaid(n.left, t.left);
      RepLaid(n.right, t.right);
    }
  }

  lemma {:induction false} LaidOnce(n: Node?, t: Tree<Node>, u: Tree<Node>)
    requires Laid(n, t) && Laid(n, u)
    ensures Ids(t) == Ids(u)
    decreases t
  {
    if t.Br? {
      LaidOnce(n.left, t.left, u.left);
      LaidOnce(n.right, t.right, u.right);
    }
  }

  // ---------------------------------------------------------------- one node back up

  /** All of `r`, as it is now, was there before. */
  twostate lemma {:induction false} Older(new r: Tree<Node>, W: set<Node>)
    requires Ids(r) <= W
    ensures old(allocated(r))
    decreases r
  {
    if r.Br? {
      Older(r.left, W);
      Older(r.right, W);
      assert r.id in W;
    }
  }

  lemma {:induction false} LaidWithin(n: Node?, t: Tree<Node>, W: set<Node>)
    requires Laid(n, t) && Closed(W) && (n == null || n in W)
    ensures Ids(t) <= W
    decreases t
  {
    if t.Br? {
      LaidWithin(n.left, t.left, W);
      LaidWithin(n.right, t.right, W);
    }
  }

  lemma BackFromKeeps<Id>(turn: nat, r: Tree<Id>)
    ensures Ids(BackFrom(turn, r)) == Ids(r)
    ensures Distinct(r) ==> Distinct(BackFrom(turn, r))
  {
    hide BackRight, BackLeft;
    BackKeepsIds(r);
    var p, q := BackRight(r), BackLeft(r);
    if p.Br? { BackKeepsIds(p.left); }
    if q.Br? { BackKeepsIds(q.right); }
  }

  /** Two trees that could hang below `n`. */
  ghost predicate Hangs(n: Node, c: Node?, o: Node?, p: Tree<Node>, q: Tree<Node>)
    reads Ids(p)`left, Ids(p)`right, Ids(q)`left, Ids(q)`right
  {
    Laid(c, p) && Laid(o, q) && Distinct(p) && Distinct(q) && Ids(p) !! Ids(q) && n !in Ids(p) && n !in Ids(q)
  }

  lemma HangsLaid(n: Node, c: Node?, o: Node?, p: Tree<Node>, q: Tree<Node>)
    requires Hangs(n, c, o, p, q)
    ensures Laid(c, p) && Distinct(p)
  {
  }

  /** With `c` on one side and `o` on the other, `n` holds the tree `t`. */
  ghost predicate Fits(n: Node, c: Node?, o: Node?, wentLeft: bool, t: Tree<Node>)
    reads n, Ids(t)
  {
    && t.Br? && Distinct(t) && Positive(t.left) && Positive(t.right)
    && n == t.id && n.base == t.base && n.size == t.size && n.height == t.height
    && Rep(if wentLeft then c else o, t.left) && Rep(if wentLeft then o else c, t.right)
  }

  /**
    Links `c` below `n` and settles. In the frame `W` of a tree this is a step of the insertion; whatever
    the nodes, if they form a tree afterwards then `c` and the other child did before, apart from each other.
   */
  method Link(n: Node, c: Node?, wentLeft: bool, base: int, ghost o: Node?, ghost t: Tree<Node>, ghost W: set<Node>)
    returns (m: Node, fault: bool)
    requires n in W && (c == null || c in W)
    requires forall x :: x in W && x != n ==> (x.left == null || x.left in W) && (x.right == null || x.right in W)
    requires o == (if wentLeft then n.right else n.left) && (o == null || o in W)
    modifies W`left, W`right, W`height
    ensures m in W && Closed(W)
    ensures old(Fits(n, c, o, wentLeft, t)) ==>
              fault == SettleFaults(t, base) && (!fault ==> Holds(m, SettleInsert(t, base)))
    ensures !fault ==> forall r: Tree<Node> {:trigger Laid(m, r)} :: allocated(r) && Distinct(r) && Laid(m, r) ==>
              exists p, q :: old(allocated(p) && allocated(q) && Hangs(n, c, o, p, q))
  {
    hide BackFrom;
    ghost var tree := Fits(n, c, o, wentLeft, t);
    if wentLeft {
      n.left := c;
    } else {
      n.right := c;
    }
    if tree { Assembled(n, t); }
    ghost var turn;
    label Linked:
    m, fault, turn := SettleNodeInsert(n, base, t, W);
    if !fault {
      forall r: Tree<Node> | allocated(r) && Distinct(r) && Laid(m, r)
        ensures exists p, q :: old(allocated(p) && allocated(q) && Hangs(n, c, o, p, q))
      {
        LaidWithin(m, r, W);
        Older@Linked(r, W);
        var s := BackFrom(turn, r);
        BackFromKeeps(turn, r);
        assert old@Linked(Laid(n, s));
        var p, q := if wentLeft then s.left else s.right, if wentLeft then s.right else s.left;
        Older(p, W);
        Older(q, W);
        assert old@Linked(Laid(c, p) && Laid(o, q));
        assert old(allocated(Ids(p)) && allocated(Ids(q)));
        assert old(Hangs(n, c, o, p, q));
      }
    }
  }

  lemma HeightRecomputed<Id>(t: Tree<Id>, h: int, base: int)
    requires t.Br?
    ensures SettleInsert(t.(height := h), base) == SettleInsert(t, base)
    ensures SettleFaults(t.(height := h), base) == SettleFaults(t, base)
    ensures Distinct(t) ==> Distinct(t.(height := h))
    ensures Ids(t) == Ids(t.(height := h))
  {
    hide RotateLeft, RotateRight, Balance;
    assert Measured(t.(height := h)) == Measured(t);
  }

  /** What hangs beside the path from the node `x`. */
  ghost function Aside<Id>(d: Tree<Id>, z: Tree<Id>, x: Id, wentLeft: bool): Tree<Id>
    requires x in Ids(z)
  {
    Hung(d, if wentLeft then CellAt(d, z, x).right else CellAt(d, z, x).left)
  }

  lemma {:induction false} AsideLaid(n: Node, wentLeft: bool, d: Tree<Node>, z: Tree<Node>, K: set<Node>)
    requires Draws(d, z) && n in Ids(z) && AsDrawn(d, z, K) && n !in K
    ensures var h := Aside(d, z, n, wentLeft);
            && IsCell(n, CellAt(d, z, n)) && (if wentLeft then n.right else n.left) == NodeOf(h)
            && (h.Br? ==> Sub(d, h.id) == h) && Distinct(h) && Positive(h) && Ids(h) <= Ids(d)
            && (Ids(h) !! K ==> Rep(NodeOf(h), h))
            && forall q :: Laid(NodeOf(h), q) ==> Ids(h) !! K || !(Ids(q) !! K)
  {
    HungNodes(d, z, n);
    var c, h := CellAt(d, z, n), Aside(d, z, n, wentLeft);
    assert IsCell(n, c);
    if h.Br? {
      SubDistinct(d, h.id);
      SubHeights(d, h.id);
    }
    if Ids(h) !! K { CellsRep(d, z, K, h); }
    forall q | Laid(NodeOf(h), q) ensures Ids(h) !! K || !(Ids(q) !! K) { CellsMeet(d, z, K, h, q); }
  }

  /** If the nodes strung together are not all different, `c` and the other child cannot hang below `n` as trees. */
  lemma {:induction false} NoneHangs(n: Node, c: Node?, o: Node?, wentLeft: bool, base: int, size: int, s: Tree<Node>,
                                     d: Tree<Node>, z: Tree<Node>, nu: Node, p: Tree<Node>, q: Tree<Node>)
    requires s.Br? && n == s.id && (wentLeft <==> base < s.base) && Ids(s) <= Ids(z) && Draws(d, z) && nu !in Ids(z)
    requires var v := Strung(Toward(s, base), d, z, base);
             && Distinct(v) && !Distinct(Strung(s, d, z, base)) && AsDrawn(d, z, Ids(v))
             && Rep(c, Along(Toward(s, base), v, base, size, nu))
    requires o == (if wentLeft then n.right else n.left)
    ensures !Hangs(n, c, o, p, q)
  {
    var v := Strung(Toward(s, base), d, z, base);
    var w := Along(Toward(s, base), v, base, size, nu);
    if Hangs(n, c, o, p, q) {
      hide Rep, Laid, Along, Strung, Sub;
      StrungFollows(Toward(s, base), d, z, base);
      AlongIds(Toward(s, base), v, base, size, nu);
      RepLaid(c, w);
      LaidOnce(c, w, p);
      assert Ids(p) == Ids(v) + {nu} && n !in Ids(v);
      AsideLaid(n, wentLeft, d, z, Ids(v));
      var h := Aside(d, z, n, wentLeft);
      assert Ids(h) !! Ids(v);
      RepLaid(NodeOf(h), h);
      LaidOnce(NodeOf(h), h, q);
      StrungStep(s, d, z, base);
      assert false;
    }
  }

  lemma StrungStep<Id>(s: Tree<Id>, d: Tree<Id>, z: Tree<Id>, base: int)
    requires s.Br? && Ids(s) <= Ids(z)
    ensures var u, v, h := Strung(s, d, z, base), Strung(Toward(s, base), d, z, base), Aside(d, z, s.id, base < s.base);
            && u == (if base < s.base then CellAt(d, z, s.id).(left := v, right := h)
                     else CellAt(d, z, s.id).(left := h, right := v))
            && (Distinct(u) <==> Distinct(v) && Distinct(h) && s.id !in Ids(v) && s.id !in Ids(h) && Ids(v) !! Ids(h))
            && Ids(u) == Ids(v) + {s.id} + Ids(h)
  {
  }

  lemma DrawnLess(d: Tree<Node>, z: Tree<Node>, K: set<Node>, M: set<Node>)
    requires AsDrawn(d, z, K) && K <= M
    ensures AsDrawn(d, z, M)
  {
  }

  /** The node `n` of the path with `w` below it on the path and what hangs beside it. */
  ghost function Grafted<Id>(u: Tree<Id>, w: Tree<Id>, wentLeft: bool, height: int): Tree<Id>
    requires u.Br?
  {
    if wentLeft then u.(left := w, height := height) else u.(right := w, height := height)
  }

  lemma GraftDistinct<Id>(u: Tree<Id>, w: Tree<Id>, wentLeft: bool, height: int, nu: Id)
    requires u.Br? && Distinct(u) && Distinct(w) && nu !in Ids(u)
    requires Ids(w) == Ids(if wentLeft then u.left else u.right) + {nu}
    ensures Distinct(Grafted(u, w, wentLeft, height))
    ensures Ids(w) + Ids(if wentLeft then u.right else u.left) + {u.id} == Ids(u) + {nu}
  {
  }

  lemma {:induction false} AlongStep<Id>(s: Tree<Id>, u: Tree<Id>, base: int, size: int, nu: Id, height: int)
    requires s.Br? && u.Br?
    ensures var v := if base < s.base then u.left else u.right;
            var t := Grafted(u, Along(Toward(s, base), v, base, size, nu), base < s.base, height);
            && Along(s, u, base, size, nu) == SettleInsert(t, base)
            && (AlongFaults(s, u, base, size, nu) <==>
                  AlongFaults(Toward(s, base), v, base, size, nu) || SettleFaults(t, base))
  {
    hide SettleInsert, SettleFaults;
    var v := if base < s.base then u.left else u.right;
    HeightRecomputed(Grafted(u, Along(Toward(s, base), v, base, size, nu), base < s.base, u.height), height, base);
  }

  /** What the call below returned fits the tree `Along` makes of the rest of the path. */
  lemma {:induction false} ClimbsOn(n: Node, c: Node?, o: Node?, base: int, size: int, s: Tree<Node>, d: Tree<Node>,
                                    z: Tree<Node>, nu: Node)
    requires s.Br? && n == s.id && Ids(s) <= Ids(z) && Draws(d, z) && nu !in Ids(z)
    requires var v := Strung(Toward(s, base), d, z, base);
             && AsDrawn(d, z, Ids(v)) && Holds(c, Along(Toward(s, base), v, base, size, nu))
    requires Distinct(Strung(s, d, z, base)) && o == (if base < s.base then n.right else n.left)
    ensures var u, v := Strung(s, d, z, base), Strung(Toward(s, base), d, z, base);
            var w, h := Along(Toward(s, base), v, base, size, nu), Aside(d, z, n, base < s.base);
            && Fits(n, c, o, base < s.base, Grafted(u, w, base < s.base, n.height))
            && Rep(c, w) && Rep(o, h) && Ids(w) + Ids(h) + {n} == Ids(u) + {nu} && Ids(u) <= Ids(z)
            && AsDrawn(d, z, Ids(u))
  {
    hide Rep, Sub, SettleInsert, SettleFaults, Along, Laid, Strung, AsDrawn, Aside, Distinct, Positive;
    var u, v := Strung(s, d, z, base), Strung(Toward(s, base), d, z, base);
    StrungStep(s, d, z, base);
    StrungFollows(Toward(s, base), d, z, base);
    StrungParts(s, d, z, base);
    StrungParts(Toward(s, base), d, z, base);
    AlongIds(Toward(s, base), v, base, size, nu);
    AsideLaid(n, base < s.base, d, z, Ids(v));
    DrawnLess(d, z, Ids(v), Ids(u));
    GraftDistinct(u, Along(Toward(s, base), v, base, size, nu), base < s.base, n.height, nu);
  }

  /** One node back up: links what the call below returned, and settles. */
  method Climb(n: Node, c: Node?, wentLeft: bool, base: int, size: int, ghost s: Tree<Node>, ghost d: Tree<Node>,
               ghost z: Tree<Node>, ghost nu: Node)
    returns (m: Node, fault: bool)
    requires s.Br? && n == s.id && (wentLeft <==> base < s.base) && Ids(s) <= Ids(z) && Draws(d, z)
    requires nu !in Ids(z) && Closed(Ids(z) + {nu}) && (c == null || c in Ids(z) + {nu})
    requires var v := Strung(Toward(s, base), d, z, base);
             Distinct(v) ==>
               && AsDrawn(d, z, Ids(v)) && !AlongFaults(Toward(s, base), v, base, size, nu)
               && Holds(c, Along(Toward(s, base), v, base, size, nu))
    requires !Distinct(Strung(Toward(s, base), d, z, base)) ==>
               forall r: Tree<Node> {:trigger Laid(c, r)} :: allocated(r) && Distinct(r) ==> !Laid(c, r)
    modifies (Ids(z) + {nu})`left, (Ids(z) + {nu})`right, (Ids(z) + {nu})`height
    ensures Closed(Ids(z) + {nu}) && m in Ids(z) + {nu}
    ensures var u := Strung(s, d, z, base);
            Distinct(u) ==>
              && fault == AlongFaults(s, u, base, size, nu)
              && (!fault ==> AsDrawn(d, z, Ids(u)) && Holds(m, Along(s, u, base, size, nu)))
    ensures !Distinct(Strung(s, d, z, base)) && !fault ==>
              forall r: Tree<Node> {:trigger Laid(m, r)} :: allocated(r) && Distinct(r) ==> !Laid(m, r)
  {
    hide Strung, Along, AlongFaults, Aside, SettleInsert, SettleFaults, Rep, Laid, Sub, Distinct, Positive;
    hide Fits, Hangs, Grafted, AsDrawn, IsCell, CellAt;
    ghost var u, v := Strung(s, d, z, base), Strung(Toward(s, base), d, z, base);
    ghost var o, W, t := if wentLeft then n.right else n.left, Ids(z) + {nu}, Nil;
    StrungStep(s, d, z, base);
    if Distinct(u) {
      ClimbsOn(n, c, o, base, size, s, d, z, nu);
      AlongStep(s, u, base, size, nu, n.height);
      RepClosed(c, Along(Toward(s, base), v, base, size, nu));
      RepClosed(o, Aside(d, z, n, wentLeft));
      t, W := Grafted(u, Along(Toward(s, base), v, base, size, nu), wentLeft, n.height), Ids(u) + {nu};
    } else {
      forall p, q: Tree<Node> | allocated(p) && allocated(q) ensures !Hangs(n, c, o, p, q) {
        if Distinct(v) { NoneHangs(n, c, o, wentLeft, base, size, s, d, z, nu, p, q); }
        else if Hangs(n, c, o, p, q) { HangsLaid(n, c, o, p, q); }
      }
    }
    assert W <= Ids(z) + {nu} && allocated(Ids(z));
    m, fault := Link(n, c, wentLeft, base, o, t, W);
  }

  // ---------------------------------------------------------------- the draw

  /** What an insertion that draws its storage may assume. */
  ghost predicate Ready(root: Node?, T: Tree<Node>, b: Tree<Node>)
    reads Ids(T)
  {
    && Holds(root, T) && Sound(T) && NotAbove(T) && Serves(T, b)
    && b.id in Ids(T) && b.id.base == b.base && b.id.size == b.size
    && b.base in Blocks(T) && Blocks(T)[b.base] == b.size
    && Replaceable(T, b.base, b.base + DRAW)
  }

  /**
    Takes the storage: the chosen node shrinks, or is deleted from the tree. An unlinked node keeps its
    block and its links.
   */
  method TakeStorage(root: Node?, base: int, size: int, ghost T: Tree<Node>, ghost b: Tree<Node>)
    returns (root': Node?, m: Node)
    requires Ready(root, T, b)
    modifies Ids(T)
    ensures Holds(root', Drawn(T, b)) && AsDrawn(Drawn(T, b), Shrunk(T, b), {})
    ensures fresh(m) && m.base == base && m.size == size && m.height == 1 && m.left == null && m.right == null
  {
    hide BestFit, Blocks, Positive, Ordered, Replaceable, NotAbove, Carve, Delete, Sub;
    ghost var d, z := Drawn(T, b), Shrunk(T, b);
    DrawShape(T, b);
    var best := FindBestFit(root, DRAW, T);
    var left := best.size - DRAW;
    CarveNode(root, best, best.base + DRAW, left, T);
    root' := root;
    forall x | x in Ids(z) ensures IsCell(x, Sub(z, x)) && x.height == Sub(z, x).height {
      RepCell(root, z, x);
    }
    assert allocated(Ids(T));
    label Shrunken:
    if left == 0 {
      root' := AvlDelete(root, best.base, z);
      forall x | x in Ids(z) ensures IsCell(x, CellAt(d, z, x)) && (x in Ids(d) ==> x.height == Sub(d, x).height) {
        if x in Ids(d) { RepCell(root', d, x); } else { assert old@Shrunken(IsCell(x, Sub(z, x))); }
      }
    }
    assert allocated(Ids(T));
    m := new Node(base, size);
  }

  /** No link of the nodes leads away from them. */
  lemma {:induction false} DrawnClosed(d: Tree<Node>, z: Tree<Node>)
    requires Draws(d, z) && AsDrawn(d, z, {})
    ensures Closed(Ids(z))
  {
    forall x | x in Ids(z) ensures (x.left == null || x.left in Ids(z)) && (x.right == null || x.right in Ids(z)) {
      HungNodes(d, z, x);
      assert IsCell(x, CellAt(d, z, x));
    }
  }

  // ---------------------------------------------------------------- the insertion

  /**
    Insertion below `n` while its storage is drawn from the whole tree `T`. If the nodes strung together
    from here on are all different, they end up as `Along` has it, and the rest of the nodes are as the
    draw left them; otherwise no tree hangs from what is returned.
   */
  method InsertDrawing(root: Node?, n: Node?, base: int, size: int,
                       ghost T: Tree<Node>, ghost s: Tree<Node>, ghost b: Tree<Node>)
    returns (m: Node?, fault: bool, ghost nu: Node)
    requires Ready(root, T, b) && size != 0 && base !in Blocks(T)
    requires OnPath(T, base, s) && Rep(n, s) && Ids(s) <= Ids(Shrunk(T, b))
    modifies Ids(T)
    ensures fresh(nu) && nu !in Ids(T)
    ensures !fault ==> Closed(Ids(T) + {nu}) && (m == null || m in Ids(T) + {nu})
    ensures var d, z := Drawn(T, b), Shrunk(T, b);
            var u := Strung(s, d, z, base);
            Distinct(u) ==>
              && fault == AlongFaults(s, u, base, size, nu)
              && (!fault ==> Holds(m, Along(s, u, base, size, nu)) && AsDrawn(d, z, Ids(u)))
    ensures !Distinct(Strung(s, Drawn(T, b), Shrunk(T, b), base)) && !fault ==>
              forall r: Tree<Node> {:trigger Laid(m, r)} :: allocated(r) && Distinct(r) ==> !Laid(m, r)
    decreases s
  {
    hide BestFit, Ordered, Positive, Replaceable, NotAbove, SettleInsert, SettleFaults, Carve, Delete, AsDrawn;
    ghost var d, z := Drawn(T, b), Shrunk(T, b);
    DrawShape(T, b);
    assert allocated(Ids(T));
    StoredHeights(n, s);
    if n == null {
      ghost var root';
      root', m := TakeStorage(root, base, size, T, b);
      nu, fault := m, false;
      DrawnClosed(d, z);
      Assembled(m, Br(nu, Nil, base, size, 1, Nil));
      return;
    }
    OnPathFacts(T, base, s);
    assert s.base in Blocks(s);
    OnPathBelow(T, base, s);
    StrungStep(s, d, z, base);
    if base < n.base {
      m, fault, nu := InsertDrawing(root, n.left, base, size, T, s.left, b);
      if fault { return; }
      m, fault := Climb(n, m, true, base, size, s, d, z, nu);
    } else {
      m, fault, nu := InsertDrawing(root, n.right, base, size, T, s.right, b);
      if fault { return; }
      m, fault := Climb(n, m, false, base, size, s, d, z, nu);
    }
  }

  /**
    The insertion from the root of the tree its own storage comes from. If the nodes strung together again
    are all different, the nodes end up exactly as `Along` over them, or a null pointer is followed exactly
    when `AlongFaults` says so; if one of them occurs twice, no tree is left at all.
   */
  method InsertIntoOwnTree(root: Node, base: int, size: int, ghost T: Tree<Node>, ghost b: Tree<Node>,
                           ghost lo: int, ghost hi: int)
    returns (m: Node?, fault: bool, ghost nu: Node)
    requires Holds(root, T) && Sound(T) && NotAbove(T) && Tidy(Blocks(T), lo, hi) && Serves(T, b)
    requires size > 0 && !Overlapped(Blocks(T), base, size)
    modifies Ids(T)
    ensures fresh(nu) && nu !in Ids(T)
    ensures !fault ==> Closed(Ids(T) + {nu}) && (m == null || m in Ids(T) + {nu})
    ensures Distinct(Resumed(T, b, base)) ==>
              && fault == AlongFaults(T, Resumed(T, b, base), base, size, nu)
              && (!fault ==> Holds(m, Along(T, Resumed(T, b, base), base, size, nu)))
    ensures !Distinct(Resumed(T, b, base)) && !fault ==>
              forall r: Tree<Node> {:trigger Laid(m, r)} :: allocated(r) && Distinct(r) ==> !Laid(m, r)
  {
    hide Along, AlongFaults, Drawn, Blocks, Ordered, Positive, NotAbove, Replaceable, Overlapped, BestFit;
    DrawnRefines(T, b, lo, hi);
    ShavedClear(Blocks(T), lo, hi, b.base, base, size);
    CarveKeepsIds(T, b.base, b.base + DRAW, b.size - DRAW);
    assert FindBestFit(root, DRAW, T) == b.id;
    assert OnPath(T, base, T);
    m, fault, nu := InsertDrawing(root, root, base, size, T, T, b);
  }
}
