/**
  Runs of the kernel's own heap from initialisation, all of allowed calls: four whose last free goes wrong,
  each in its own way, and one whose last free moves the search path and still leaves the right heap.
 */
module KernelRuns {
  import opened Machine
  import opened AvlTree
  import opened FreeBlocks
  import opened FaultPath
  import opened HeapModel
  import opened Unwinding
  import opened Drawing
  import opened KernelHeap
  import HeapFault

  const K := KHEAP_START

  // ---------------------------------------------------------------- calls one after the other

  /** The run is allowed and ends in `s`. */
  ghost predicate Reaches<Id>(s0: KernelState<Id>, ops: seq<Op<Id>>, s: KernelState<Id>) {
    KernelMay(s0, ops) && KernelRun(s0, ops) == s
  }

  lemma {:induction false} Then<Id>(s0: KernelState<Id>, ops: seq<Op<Id>>, s: KernelState<Id>, op: Op<Id>)
    requires Reaches(s0, ops, s) && ClientMay(s, op)
    ensures Reaches(s0, ops + [op], KernelStep(s, op))
    decreases |ops|
  {
    hide KernelStep, ClientMay;
    if ops == [] {
      assert ops + [op] == [op] && [op][1..] == [];
      assert KernelMay(KernelStep(s, op), []) && KernelRun(KernelStep(s, op), []) == KernelStep(s, op);
    } else {
      Then(KernelStep(s0, ops[0]), ops[1..], s, op);
      assert (ops + [op])[1..] == ops[1..] + [op];
    }
  }

  lemma Nothing<Id>(s: KernelState<Id>)
    ensures Reaches(s, [], s)
  {
  }

  lemma And<Id>(s0: KernelState<Id>, ops: seq<Op<Id>>, s: KernelState<Id>, op: Op<Id>, ops': seq<Op<Id>>)
    requires Reaches(s0, ops, s) && ClientMay(s, op) && ops' == ops + [op]
    ensures Reaches(s0, ops', KernelStep(s, op))
  {
    Then(s0, ops, s, op);
  }

  function One<Id>(id: Id, base: int, size: int): Tree<Id> {
    Br(id, Nil, base, size, 1, Nil)
  }

  /** A request served from the front of the only free block. */
  lemma {:induction false} Asked<Id>(s: KernelState<Id>, id: Id, base: int, left: int, size: int)
    requires s.Up? && KernelSafe(s) && s.heap.tree == One(id, base, left)
    requires 0 <= base && 0 <= size && size + HEADER < left && base + left < WORD
    ensures var s' := KernelStep(s, Request(false, size));
            && s'.Up? && KernelSafe(s') && ClientMay(s, Request(false, size))
            && s'.heap.tree == One(id, base + size + HEADER, left - size - HEADER)
            && s'.live == s.live[base + HEADER := size] && s'.nodes == s.nodes
            && s'.heap.start == s.heap.start && s'.heap.end == s.heap.end
  {
    hide Alloc, Inv, Blocks, RequestFits;
    OnlyBlockServes(s.heap, id, base, left, size);
    KernelStepSafe(s, Request(false, size));
  }

  lemma OpenedAlone<Id>(h: Heap<Id>, from: int, total: int)
    requires Neighbours(h.tree, from, total, Nil, Nil) == (Nil, Nil)
    ensures Opened(h, from, total) == (h.tree, from, total)
  {
  }

  /** A free that finds room: the path is where it was, and the insertion goes into the drawn tree. */
  lemma {:induction false} Freed<Id>(s: KernelState<Id>, p: int, nu: Id, t: Tree<Id>, b: Tree<Id>)
    requires s.Up? && KernelSafe(s) && ClientMay(s, GiveBack(p, nu)) && |Blocks(s.heap.tree)| <= 3
    requires Opened(s.heap, p - HEADER, s.live[p] + HEADER) == (t, p - HEADER, s.live[p] + HEADER)
    requires b == BestFit(t, DRAW) && b.Br? && b.size > DRAW
    ensures var s' := KernelStep(s, GiveBack(p, nu));
            && s'.Up? && KernelSafe(s')
            && s'.heap.tree == Insert(Drawn(t, b), p - HEADER, s.live[p] + HEADER, nu)
            && s'.live == (s.live - {p})[b.base + HEADER := NODE] && s'.nodes == s.nodes + {b.base + HEADER}
            && s'.heap.start == s.heap.start && s'.heap.end == s.heap.end
  {
    hide Inv, Blocks, Opened, BestFit, Insert, InsertFaults, Along, AlongFaults, Resumed, Drawn, PathClashes;
    hide Ordered, Positive, NotAbove, Distinct, Traceable, Shaved, Overlapped, Right, FreeCompletes;
    var h, from, total := s.heap, p - HEADER, s.live[p] + HEADER;
    assert Inv(h, s.live);
    FreeDrawingSafe(h, s.live, p, nu);
    LiveBounds(h, s.live, p);
    RoomyCompletes(h, from, total, nu);
    FreeCompletesExactly(h, from, total, nu);
    OpenedTree(h, from, total);
    FoundServes(t);
    DrawnRefines(t, b, h.start, h.end);
    ShavedClear(Blocks(t), h.start, h.end, b.base, from, total);
    PartialTraceable(t, b, from);
    TraceableSearches(t, b, h.start, h.end, from, total, nu);
    GiveBackSafe(s, p, nu);
    WrapSmall(from + total);
  }

  lemma Owned<Id>(s: KernelState<Id>, p: int, nu: Id)
    requires s.Up? && KernelSafe(s) && ClientMay(s, GiveBack(p, nu))
    ensures Inv(s.heap, s.live) && Distinct(s.heap.tree) && p in s.live
  {
    hide Inv, Distinct;
  }

  lemma Answers<Id>(h: Heap<Id>, t: Tree<Id>, from: int, total: int, nu: Id)
    ensures !PutBack(h, t, from, total, nu).Unchanged?
  {
    hide Resumed, Along, AlongFaults, Right, BestFit, Distinct;
  }

  lemma GiveBackStep<Id>(s: KernelState<Id>, p: int, nu: Id, o: Outcome<Id>)
    requires s.Up? && o == FreePointerDrawing(s.heap, p, nu) && !o.Unchanged?
    ensures KernelStep(s, GiveBack(p, nu)) ==
            if o.Released? then Up(o.heap, (s.live - {p})[o.node := NODE], s.nodes + {o.node}) else Down(o)
  {
    hide FreePointerDrawing;
  }

  /** A free of a block that touches no free one puts just that block back. */
  lemma {:induction false} StepPutsBack<Id>(s: KernelState<Id>, p: int, nu: Id)
    requires s.Up? && KernelSafe(s) && ClientMay(s, GiveBack(p, nu))
    requires Neighbours(s.heap.tree, p - HEADER, s.live[p] + HEADER, Nil, Nil) == (Nil, Nil)
    ensures var o := PutBack(s.heap, s.heap.tree, p - HEADER, s.live[p] + HEADER, nu);
            && !o.Unchanged?
            && KernelStep(s, GiveBack(p, nu)) ==
               if o.Released? then Up(o.heap, (s.live - {p})[o.node := NODE], s.nodes + {o.node}) else Down(o)
  {
    hide *;
    Owned(s, p, nu);
    var h, from, total := s.heap, p - HEADER, s.live[p] + HEADER;
    OpenedAlone(h, from, total);
    FreeAccepted(h, s.live, p, nu);
    Answers(h, h.tree, from, total, nu);
    GiveBackStep(s, p, nu, PutBack(h, h.tree, from, total, nu));
  }

  lemma LeafBlocks<Id>(t: Tree<Id>)
    requires t.Br? && t.left.Nil? && t.right.Nil?
    ensures Blocks(t) == map[t.base := t.size] && Ids(t) == {t.id}
  {
  }

  lemma FewBlocks<Id>(t: Tree<Id>, a: int, b: int, c: int)
    requires forall k :: k in Blocks(t) ==> k == a || k == b || k == c
    ensures |Blocks(t)| <= 3
  {
    hide Blocks;
    var one, two := map[a := 0], map[a := 0][b := 0];
    assert |one| == 1 && |two| <= 2 && |two[c := 0]| <= 3;
    HeapFault.FewerKeys(Blocks(t), two[c := 0]);
  }

  /** The first free: the block ends up left of the only free block, which gives the storage. */
  lemma {:induction false} FirstFree<Id>(s: KernelState<Id>, id: Id, base: int, left: int, p: int, nu: Id)
    requires s.Up? && KernelSafe(s) && s.heap.tree == One(id, base, left) && nu != id && left > DRAW
    requires p in s.live && p !in s.nodes && p + s.live[p] < base
    ensures var s' := KernelStep(s, GiveBack(p, nu));
            && s'.Up? && KernelSafe(s') && ClientMay(s, GiveBack(p, nu))
            && s'.heap.tree == Br(id, One(nu, p - HEADER, s.live[p] + HEADER), base + DRAW, left - DRAW, 2, Nil)
            && s'.live == (s.live - {p})[base + HEADER := NODE] && s'.nodes == s.nodes + {base + HEADER}
            && s'.heap.start == s.heap.start && s'.heap.end == s.heap.end
  {
    hide Inv, Insert, KernelStep, KernelSafe, FreeOk, BestFit, Neighbours, Drawn, Opened, Blocks;
    var from, total := p - HEADER, s.live[p] + HEADER;
    var t := s.heap.tree;
    SafeBounds(s, p);
    OneAlone(t, id, base, left, from, total);
    OpenedAlone(s.heap, from, total);
    Freed(s, p, nu, t, t);
    LeafLeft(Drawn(t, t), from, total, nu);
  }

  lemma {:induction false} LeafLeft<Id>(t: Tree<Id>, from: int, total: int, nu: Id)
    requires t.Br? && t.left.Nil? && t.right.Nil? && from < t.base && total != 0
    ensures Insert(t, from, total, nu) == t.(left := One(nu, from, total), height := 2)
  {
    assert Insert(t.left, from, total, nu) == One(nu, from, total);
    assert Measured(t.(left := One(nu, from, total))) == t.(left := One(nu, from, total), height := 2);
  }

  lemma SafeBounds<Id>(s: KernelState<Id>, p: int)
    requires s.Up? && KernelSafe(s) && p in s.live
    ensures s.live[p] >= 0 && s.heap.start <= p - HEADER && p + s.live[p] <= s.heap.end
  {
    hide Inv;
    LiveBounds(s.heap, s.live, p);
  }

  lemma OneAlone<Id>(t: Tree<Id>, id: Id, base: int, left: int, from: int, total: int)
    requires t == One(id, base, left) && left > DRAW && from + total < base && total >= 0
    ensures Neighbours(t, from, total, Nil, Nil) == (Nil, Nil)
    ensures BestFit(t, DRAW) == t && Drawn(t, t) == One(id, base + DRAW, left - DRAW)
    ensures |Blocks(t)| <= 3 && Ids(t) == {id}
  {
    assert t.left == Nil && t.right == Nil;
    BestFitOfNil(t.left, DRAW);
    FewBlocks(t, base, base, base);
  }

  function Two<Id>(id: Id, x: Id, lo: int, len: int, base: int, left: int): Tree<Id> {
    Br(id, One(x, lo, len), base, left, 2, Nil)
  }

  /** A new block between the two makes a left-right rotation. */
  lemma {:induction false} BetweenTwo<Id>(id: Id, x: Id, lo: int, len: int, base: int, left: int, from: int,
                                          total: int, nu: Id)
    requires lo < from < base && total != 0
    ensures Insert(Two(id, x, lo, len, base, left), from, total, nu) ==
            Br(nu, One(x, lo, len), from, total, 2, One(id, base, left))
  {
    var t, l := Two(id, x, lo, len, base, left), One(x, lo, len);
    assert Insert(l.right, from, total, nu) == One(nu, from, total);
    var m := l.(right := One(nu, from, total), height := 2);
    assert Measured(l.(right := One(nu, from, total))) == m;
    assert Insert(l, from, total, nu) == m;
    var n := t.(left := m, height := 3);
    assert Measured(t.(left := m)) == n;
    assert RotateLeft(m) == Br(nu, l, from, total, 2, Nil);
  }

  /** A new block below both makes a right rotation. */
  lemma {:induction false} BelowTwo<Id>(id: Id, x: Id, lo: int, len: int, base: int, left: int, from: int,
                                        total: int, nu: Id)
    requires from < lo < base && total != 0
    ensures Insert(Two(id, x, lo, len, base, left), from, total, nu) ==
            Br(x, One(nu, from, total), lo, len, 2, One(id, base, left))
  {
    var t, l := Two(id, x, lo, len, base, left), One(x, lo, len);
    LeafLeft(l, from, total, nu);
    var m := l.(left := One(nu, from, total), height := 2);
    var n := t.(left := m, height := 3);
    assert Measured(t.(left := m)) == n;
  }

  /** A free range that touches neither of two blocks, one of them too small to give the storage. */
  lemma TwoAlone<Id>(t: Tree<Id>, id: Id, x: Id, lo: int, len: int, base: int, left: int, from: int, total: int)
    requires t == Two(id, x, lo, len, base, left) && total >= 0 && len >= 0 && left >= 0
    requires (from + total < lo && lo + len < base) || (lo + len < from && from + total < base)
    ensures Neighbours(t, from, total, Nil, Nil) == (Nil, Nil)
  {
    var l := One(x, lo, len);
    assert t.left == l && t.right == Nil && l.left == Nil && l.right == Nil;
    assert Neighbours(l, from, total, Nil, Nil) == (Nil, Nil);
  }

  lemma TwoBlocks<Id>(t: Tree<Id>, l: Tree<Id>)
    requires t.Br? && t.left == l && l.Br? && t.right.Nil? && l.left.Nil? && l.right.Nil?
    ensures |Blocks(t)| <= 3
  {
    hide Blocks;
    LeafBlocks(l);
    BlocksOf(t);
    NoBlocks(t.right, 0);
    FewBlocks(t, l.base, t.base, t.base);
  }

  lemma TwoDrawn<Id>(t: Tree<Id>, id: Id, x: Id, lo: int, len: int, base: int, left: int)
    requires t == Two(id, x, lo, len, base, left) && 0 <= len < DRAW < left
    ensures BestFit(t, DRAW) == t && Drawn(t, t) == Two(id, x, lo, len, base + DRAW, left - DRAW)
    ensures t.Br? && t.base == base && t.size > DRAW && |Blocks(t)| <= 3 && Ids(t) == {id, x}
  {
    var l := One(x, lo, len);
    assert t.left == l && t.right == Nil && l.left == Nil && l.right == Nil;
    BestFitOfNil(l.right, DRAW);
    assert BestFit(l, DRAW) == Nil && Ids(l) == {x};
    TwoBlocks(t, l);
  }

  /** The second free, with its block below the first or between it and the rest. */
  lemma {:induction false} SecondFree<Id>(s: KernelState<Id>, id: Id, x: Id, lo: int, len: int, base: int, left: int,
                                          p: int, nu: Id)
    requires s.Up? && KernelSafe(s) && s.heap.tree == Two(id, x, lo, len, base, left)
    requires nu !in {id, x} && 0 <= len < DRAW < left && p in s.live && p !in s.nodes
    requires (p + s.live[p] < lo && lo + len < base) || (lo + len < p - HEADER && p + s.live[p] < base)
    ensures var s' := KernelStep(s, GiveBack(p, nu));
            var from, total := p - HEADER, s.live[p] + HEADER;
            && s'.Up? && KernelSafe(s') && ClientMay(s, GiveBack(p, nu))
            && var r := One(id, base + DRAW, left - DRAW);
               s'.heap.tree == (if from < lo then Br(x, One(nu, from, total), lo, len, 2, r)
                                else Br(nu, One(x, lo, len), from, total, 2, r))
    ensures var s' := KernelStep(s, GiveBack(p, nu));
            && s'.live == (s.live - {p})[base + HEADER := NODE] && s'.nodes == s.nodes + {base + HEADER}
            && s'.heap.start == s.heap.start && s'.heap.end == s.heap.end
  {
    hide Inv, Insert, KernelStep, KernelSafe, FreeOk, BestFit, Neighbours, Drawn, Opened, Blocks, Two;
    var from, total := p - HEADER, s.live[p] + HEADER;
    var t := s.heap.tree;
    SafeBounds(s, p);
    TwoAlone(t, id, x, lo, len, base, left, from, total);
    TwoDrawn(t, id, x, lo, len, base, left);
    OpenedAlone(s.heap, from, total);
    Freed(s, p, nu, t, t);
    if from < lo { BelowTwo(id, x, lo, len, base + DRAW, left - DRAW, from, total, nu); }
    else { BetweenTwo(id, x, lo, len, base + DRAW, left - DRAW, from, total, nu); }
  }

  // ---------------------------------------------------------------- nothing to make a node from

  /** Two calls: take everything, and give it back. Nothing is left to make a node from. */
  lemma {:induction false} NoStorageRun<Id>(nu: Id, nu': Id)
    ensures var ops := [Request(false, KHEAP_INITIAL - HEADER), GiveBack(K + HEADER, nu')];
            KernelMay(Fresh(nu), ops) && KernelRun(Fresh(nu), ops) == Down(NoStorage)
  {
    hide Alloc, Initial;
    var s := Fresh(nu);
    FreshShape(nu);
    OnlyBlockServes(s.heap, nu, K, KHEAP_INITIAL, KHEAP_INITIAL - HEADER);
    var op: Op<Id>, op' := Request(false, KHEAP_INITIAL - HEADER), GiveBack(K + HEADER, nu');
    var t := KernelStep(s, op);
    assert t.heap.tree == Nil && HeaderAt(t.heap, K) == Header(MAGIC, KHEAP_INITIAL - HEADER);
    assert FreePointerDrawing(t.heap, K + HEADER, nu') == NoStorage;
    assert KernelStep(t, op') == Down(NoStorage);
    hide KernelStep;
    Nothing(s);
    And(s, [], s, op, [op]);
    And(s, [op], t, op', [op, op']);
  }

  // ---------------------------------------------------------------- a block of no bytes

  /** All that is free are the last 28 bytes, and they make the node for a block below them. */
  lemma {:induction false} LastBlock<Id>(t: Tree<Id>, id: Id, base: int, from: int, total: int, nu: Id)
    requires t == One(id, base, DRAW) && from + total < base && total > 0
    ensures BestFit(t, DRAW) == t && Neighbours(t, from, total, Nil, Nil) == (Nil, Nil)
    ensures var u := Resumed(t, t, from);
            && Distinct(u) && !AlongFaults(t, u, from, total, nu)
            && Along(t, u, from, total, nu) == Br(id, One(nu, from, total), base + DRAW, 0, 2, Nil)
  {
    var u := One(id, base + DRAW, 0);
    assert t.left == Nil && t.right == Nil && u.left == Nil && u.right == Nil;
    BestFitOfNil(t.left, DRAW);
    assert BestFit(t, DRAW) == t;
    assert Neighbours(t, from, total, Nil, Nil) == (Nil, Nil);
    assert Shrunk(t, t) == u && Drawn(t, t) == Nil && Sub(u, id) == u;
    assert Resumed(t, t, from) == u;
    var leaf := One(nu, from, total);
    assert Along(t.left, u.left, from, total, nu) == leaf && !AlongFaults(t.left, u.left, from, total, nu);
    assert SettleInsert(u.(left := leaf), from) == u.(left := leaf, height := 2);
  }

  lemma LeftOfEmpty<Id>(t: Tree<Id>, id: Id, base: int, nu: Id, from: int, total: int)
    requires t == Br(id, One(nu, from, total), base, 0, 2, Nil)
    ensures base in Blocks(t) && Blocks(t)[base] == 0
    ensures forall k :: k > 0 ==> BestFit(t, k) == Nil
  {
    assert t.right == Nil && Blocks(t.right) == map[];
    forall k | k > 0 ensures BestFit(t, k) == Nil {
      BestFitOfNil(t.right, k);
    }
  }

  /**
    Three calls: take 100 bytes with their header and all but 28 of the rest, and give the first
    block back. Its node uses up the last free block, whose own node stays the root of the tree with
    no bytes in it; no search ever looks left of it again, so the bytes given back are lost.
   */
  lemma {:induction false} UsedUpRun<Id>(nu: Id, nu': Id)
    requires nu != nu'
    ensures var ops := [Request(false, 92), Request(false, KHEAP_INITIAL - 136), GiveBack(K + HEADER, nu')];
            var s := KernelRun(Fresh(nu), ops);
            && KernelMay(Fresh(nu), ops) && s.Down? && s.why.Spoilt?
            && s.why.heap.tree == Br(nu, Br(nu', Nil, K, 100, 1, Nil), K + KHEAP_INITIAL, 0, 2, Nil)
            && forall k :: k > 0 ==> BestFit(s.why.heap.tree, k) == Nil
  {
    hide KernelStep, KernelSafe, ClientMay, KernelMay, KernelRun, Alloc, BestFit;
    var s0 := Fresh(nu);
    FreshShape(nu);
    var a: Op<Id>, b: Op<Id>, c := Request(false, 92), Request(false, KHEAP_INITIAL - 136), GiveBack(K + HEADER, nu');
    Nothing(s0);
    Asked(s0, nu, K, KHEAP_INITIAL, 92);
    var s1 := KernelStep(s0, a);
    And(s0, [], s0, a, [a]);
    Asked(s1, nu, K + 100, KHEAP_INITIAL - 100, KHEAP_INITIAL - 136);
    var s2 := KernelStep(s1, b);
    And(s0, [a], s1, b, [a, b]);
    LastUsedUp(s2, nu, K + KHEAP_INITIAL - 28, K + HEADER, nu');
    And(s0, [a, b], s2, c, [a, b, c]);
  }

  lemma {:induction false} LastUsedUp<Id>(s: KernelState<Id>, id: Id, base: int, p: int, nu: Id)
    requires s.Up? && KernelSafe(s) && s.heap.tree == One(id, base, DRAW) && nu != id
    requires p in s.live && p !in s.nodes && p + s.live[p] < base
    ensures ClientMay(s, GiveBack(p, nu))
    ensures var o := KernelStep(s, GiveBack(p, nu));
            && o.Down? && o.why.Spoilt?
            && o.why.heap.tree == Br(id, One(nu, p - HEADER, s.live[p] + HEADER), base + DRAW, 0, 2, Nil)
            && forall k :: k > 0 ==> BestFit(o.why.heap.tree, k) == Nil
  {
    hide Inv, KernelSafe, KernelStep, Along, AlongFaults, Resumed, Distinct, BestFit, Neighbours, Blocks;
    var t, from, total := s.heap.tree, p - HEADER, s.live[p] + HEADER;
    LeafBlocks(t);
    SafeBounds(s, p);
    LastBlock(t, id, base, from, total, nu);
    StepPutsBack(s, p, nu);
    LeftOfEmpty(Br(id, One(nu, from, total), base + DRAW, 0, 2, Nil), id, base + DRAW, nu, from, total);
  }

  // ---------------------------------------------------------------- a block that is in the tree twice

  /** The draw uses up the root, which takes over the last block; unwinding links that block's node again. */
  lemma {:induction false} Doubled<Id>(t: Tree<Id>, y: Id, x: Id, lo: int, mid: int, id: Id, base: int, left: int,
                                       from: int, nu: Id)
    requires t == Br(y, One(x, lo, 16), mid, DRAW, 2, One(id, base, left))
    requires y != x && y != id && x != id && lo < mid && mid + DRAW < from < base
    ensures BestFit(t, DRAW) == t
    ensures var u := Resumed(t, t, from);
            && Distinct(u) && !AlongFaults(t, u, from, 16, nu)
            && Along(t, u, from, 16, nu) == Twice(y, x, lo, id, base, left, from, nu)
  {
    var l, r := One(x, lo, 16), One(id, base, left);
    assert t.left == l && t.right == r && l.left == Nil && l.right == Nil && r.left == Nil && r.right == Nil;
    assert Ids(l) == {x} && Ids(r) == {id};
    BestFitOfNil(l.right, DRAW);
    assert BestFit(l, DRAW) == Nil;
    var z := Br(y, l, mid + DRAW, 0, 2, r);
    var d := Br(y, l, base, left, 2, Nil);
    assert Shrunk(t, t) == z;
    assert Delete(r, base) == Nil && Leftmost(r) == r;
    assert SettleDelete(Br(y, l, base, left, 2, Nil)) == d;
    assert Drawn(t, t) == d;
    assert Ids(d) == {y, x} && Sub(d, y) == d && Sub(d, x) == l && Sub(z, id) == r;
    assert CellAt(d, z, id) == r && CellAt(d, z, y) == d;
    assert Strung(r, d, z, from) == r;
    var u := Br(y, l, base, left, 2, r);
    assert Strung(t, d, z, from) == u;
    var r' := Br(id, One(nu, from, 16), base, left, 2, Nil);
    assert Along(r.left, r.left, from, 16, nu) == One(nu, from, 16);
    assert SettleInsert(r.(left := One(nu, from, 16)), from) == r';
    assert Along(r, r, from, 16, nu) == r';
    assert !AlongFaults(r.left, r.left, from, 16, nu) && !AlongFaults(r, r, from, 16, nu);
    assert !SettleFaults(u.(right := r'), from);
    assert SettleInsert(u.(right := r'), from) == u.(right := r', height := 3);
  }

  /** The tree in which the block at `base` hangs from two nodes. */
  function Twice<Id>(y: Id, x: Id, lo: int, id: Id, base: int, left: int, from: int, nu: Id): Tree<Id> {
    Br(y, One(x, lo, 16), base, left, 3, Br(id, One(nu, from, 16), base, left, 2, Nil))
  }

  lemma ThreeAlone<Id>(t: Tree<Id>, from: int, total: int)
    requires t.Br? && t.right.Br? && t.right.left.Nil? && t.right.right.Nil? && 0 <= t.size && 0 <= t.right.size
    requires t.base + t.size < from && from + total < t.right.base && 0 < total
    ensures Neighbours(t, from, total, Nil, Nil) == (Nil, Nil)
  {
    assert Neighbours(t.right, from, total, Nil, Nil) == (Nil, Nil);
  }

  lemma {:induction false} LastDoubled<Id>(s: KernelState<Id>, y: Id, x: Id, lo: int, mid: int, id: Id, base: int,
                                           left: int, p: int, nu: Id)
    requires s.Up? && KernelSafe(s) && s.heap.tree == Br(y, One(x, lo, 16), mid, DRAW, 2, One(id, base, left))
    requires y != x && y != id && x != id && lo < mid && mid + DRAW < p - HEADER && p + 8 < base && left >= 0
    requires ClientMay(s, GiveBack(p, nu)) && s.live[p] == 8
    ensures var o := KernelStep(s, GiveBack(p, nu));
            && o.Down? && o.why.Spoilt? && o.why.heap.tree == Twice(y, x, lo, id, base, left, p - HEADER, nu)
            && o.why.heap.start == s.heap.start && o.why.heap.end == s.heap.end
  {
    hide Inv, KernelSafe, KernelStep, Along, AlongFaults, Resumed, Distinct, BestFit, Neighbours, Blocks;
    var t, from := s.heap.tree, p - HEADER;
    ThreeAlone(t, from, 16);
    Doubled(t, y, x, lo, mid, id, base, left, from, nu);
    TwiceNotOrdered(y, x, lo, id, base, left, from, nu);
    StepPutsBack(s, p, nu);
  }

  lemma TwiceNotOrdered<Id>(y: Id, x: Id, lo: int, id: Id, base: int, left: int, from: int, nu: Id)
    ensures !Ordered(Twice(y, x, lo, id, base, left, from, nu))
  {
    var r := Br(id, One(nu, from, 16), base, left, 2, Nil);
    assert base in Blocks(r);
  }

  /** The next two requests that this block can serve are both given its first address. */
  lemma {:induction false} HandedOutTwice<Id>(h: Heap<Id>, y: Id, x: Id, lo: int, id: Id, base: int, left: int,
                                              from: int, nu: Id)
    requires h.tree == Twice(y, x, lo, id, base, left, from, nu) && lo < from < base && left >= 72 && base >= 0
    requires base + left < WORD
    ensures var o := Alloc(h, false, left - HEADER);
            && o.Done? && o.addr == base + HEADER
            && Alloc(o.heap, false, 64).Done? && Alloc(o.heap, false, 64).addr == base + HEADER
  {
    var t := h.tree;
    var l, r, leaf := t.left, t.right, One(nu, from, 16);
    assert l == One(x, lo, 16) && l.right == Nil && r.left == leaf && r.right == Nil;
    assert leaf.left == Nil && leaf.right == Nil;
    WrapSmall(left);
    WrapSmall(base + HEADER);
    WrapSmall(base + left);
    WrapSmall(0);
    BestFitOfNil(l.right, left);
    assert BestFit(l, left) == Nil && BestFit(t, left) == t;
    var one := One(id, base, left);
    assert Leftmost(r) == leaf && Delete(leaf, from) == Nil;
    assert SettleDelete(r.(left := Nil)) == one;
    assert Delete(r, from) == one;
    var u := t.(base := from, size := 16, right := one, height := 2);
    assert SettleDelete(t.(base := from, size := 16, right := one)) == u;
    assert Carve(t, base, base + left, 0) == t.(base := base + left, size := 0);
    assert Carved(t, base, base + left, 0) == u;
    WrapSmall(72);
    WrapSmall(base + 72);
    WrapSmall(left - 72);
    assert one.left == Nil;
    BestFitOfNil(one.left, 72);
    assert BestFit(u, 72) == one;
  }

  /**
    Nine calls. The last free uses up the root, whose two children make the deletion copy the last block
    into it; on the way back up that block's own node is linked again. The block is in the tree twice, and
    the next two requests it can serve get the same address.
   */
  lemma {:induction false} DoubledRun<Id>(nu: Id, x: Id, y: Id, z: Id)
    requires nu != x && nu != y && x != y && z != nu && z != x && z != y
    ensures var ops := [Request(false, 8), Request(false, 8), Request(false, 20), Request(false, 8),
                        Request(false, 8), Request(false, 8),
                        GiveBack(K + 0x08, x), GiveBack(K + 0x28, y), GiveBack(K + 0x54, z)];
            var s := KernelRun(Fresh(nu), ops);
            && KernelMay(Fresh(nu), ops) && s.Down? && s.why.Spoilt?
            && multiset(Row(s.why.heap.tree))[(K + 0xA4, 1048412)] == 2
            && var o := Alloc(s.why.heap, false, 1048404);
            && o.Done? && o.addr == K + 0xAC
            && Alloc(o.heap, false, 64).Done? && Alloc(o.heap, false, 64).addr == K + 0xAC
  {
    hide KernelStep, KernelSafe, ClientMay, KernelMay, KernelRun, Alloc, Twice;
    var s0 := Fresh(nu);
    FreshShape(nu);
    var r8: Op<Id>, r20: Op<Id> := Request(false, 8), Request(false, 20);
    var f, g, e := GiveBack(K + 0x08, x), GiveBack(K + 0x28, y), GiveBack(K + 0x54, z);
    Nothing(s0);
    Asked(s0, nu, K, KHEAP_INITIAL, 8);
    var s1 := KernelStep(s0, r8);
    And(s0, [], s0, r8, [r8]);
    Asked(s1, nu, K + 16, KHEAP_INITIAL - 16, 8);
    var s2 := KernelStep(s1, r8);
    And(s0, [r8], s1, r8, [r8, r8]);
    Asked(s2, nu, K + 32, KHEAP_INITIAL - 32, 20);
    var s3 := KernelStep(s2, r20);
    And(s0, [r8, r8], s2, r20, [r8, r8, r20]);
    Asked(s3, nu, K + 60, KHEAP_INITIAL - 60, 8);
    var s4 := KernelStep(s3, r8);
    And(s0, [r8, r8, r20], s3, r8, [r8, r8, r20, r8]);
    Asked(s4, nu, K + 76, KHEAP_INITIAL - 76, 8);
    var s5 := KernelStep(s4, r8);
    And(s0, [r8, r8, r20, r8], s4, r8, [r8, r8, r20, r8, r8]);
    Asked(s5, nu, K + 92, KHEAP_INITIAL - 92, 8);
    var s6 := KernelStep(s5, r8);
    And(s0, [r8, r8, r20, r8, r8], s5, r8, [r8, r8, r20, r8, r8, r8]);
    FirstFree(s6, nu, K + 108, KHEAP_INITIAL - 108, K + 8, x);
    var s7 := KernelStep(s6, f);
    And(s0, [r8, r8, r20, r8, r8, r8], s6, f, [r8, r8, r20, r8, r8, r8, f]);
    SecondFree(s7, nu, x, K, 16, K + 136, KHEAP_INITIAL - 136, K + 40, y);
    var s8 := KernelStep(s7, g);
    And(s0, [r8, r8, r20, r8, r8, r8, f], s7, g, [r8, r8, r20, r8, r8, r8, f, g]);
    MayGiveBack(s8, K + 0x54, z, y, x, nu);
    LastDoubled(s8, y, x, K, K + 32, nu, K + 164, KHEAP_INITIAL - 164, K + 0x54, z);
    And(s0, [r8, r8, r20, r8, r8, r8, f, g], s8, e, [r8, r8, r20, r8, r8, r8, f, g, e]);
    var s9 := KernelStep(s8, e);
    HandedOutTwice(s9.why.heap, y, x, K, nu, K + 164, KHEAP_INITIAL - 164, K + 76, z);
    TwiceRow(y, x, K, nu, K + 164, KHEAP_INITIAL - 164, K + 76, z);
  }

  lemma TwiceRow<Id>(y: Id, x: Id, lo: int, id: Id, base: int, left: int, from: int, nu: Id)
    requires lo < from < base
    ensures multiset(Row(Twice(y, x, lo, id, base, left, from, nu)))[(base, left)] == 2
  {
    var t := Twice(y, x, lo, id, base, left, from, nu);
    assert Row(t.left) == [(lo, 16)] && Row(t.right.left) == [(from, 16)];
    assert Row(t.right) == [(from, 16)] + [(base, left)];
    assert Row(t) == [(lo, 16)] + [(base, left)] + ([(from, 16)] + [(base, left)]);
  }

  lemma MayGiveBack<Id>(s: KernelState<Id>, p: int, nu: Id, a: Id, b: Id, c: Id)
    requires s.Up? && p in s.live && p !in s.nodes && nu != a && nu != b && nu != c
    requires var t := s.heap.tree; t.Br? && t.id == a && t.left.Br? && t.left == One(b, t.left.base, t.left.size)
                                   && t.right.Br? && t.right == One(c, t.right.base, t.right.size)
    ensures ClientMay(s, GiveBack(p, nu))
  {
    var t := s.heap.tree;
    assert Ids(t.left) == {b} && Ids(t.right) == {c};
  }

  // ---------------------------------------------------------------- a path that moves

  function Eights<Id>(n: nat): seq<Op<Id>> {
    if n == 0 then [] else Eights(n - 1) + [Request(false, 8)]
  }

  lemma {:induction false} EightsAsked<Id>(nu: Id, n: nat)
    requires n <= 8
    ensures var s := KernelRun(Fresh(nu), Eights(n));
            && Reaches(Fresh(nu), Eights(n), s) && s.Up? && KernelSafe(s) && s.nodes == {}
            && s.heap.tree == One(nu, K + 16 * n, KHEAP_INITIAL - 16 * n)
            && (forall i :: 0 <= i < n ==> K + 16 * i + 8 in s.live && s.live[K + 16 * i + 8] == 8)
  {
    hide KernelStep, KernelSafe, ClientMay, KernelMay;
    FreshShape(nu);
    if n == 0 {
      Nothing(Fresh(nu));
    } else {
      EightsAsked(nu, n - 1);
      var s := KernelRun(Fresh(nu), Eights(n - 1));
      Asked(s, nu, K + 16 * (n - 1), KHEAP_INITIAL - 16 * (n - 1), 8);
      Then(Fresh(nu), Eights(n - 1), s, Request(false, 8));
    }
  }

  /** The third free ends up at the far left, and the last block gives the storage. */
  lemma {:induction false} ThirdFree<Id>(s: KernelState<Id>, a: Id, top: int, b: Id, mid: int, id: Id, base: int,
                                         left: int, p: int, nu: Id)
    requires s.Up? && KernelSafe(s) && s.heap.tree == Br(a, One(b, mid, 16), top, 16, 2, One(id, base, left))
    requires nu != a && nu != b && nu != id && left > DRAW && mid + 16 < top && top + 16 < base
    requires p in s.live && p !in s.nodes && p + s.live[p] < mid
    ensures var s' := KernelStep(s, GiveBack(p, nu));
            && s'.Up? && KernelSafe(s') && ClientMay(s, GiveBack(p, nu))
            && s'.heap.tree == Br(a, Br(b, One(nu, p - HEADER, s.live[p] + HEADER), mid, 16, 2, Nil), top, 16, 3,
                                  One(id, base + DRAW, left - DRAW))
            && s'.live == (s.live - {p})[base + HEADER := NODE] && s'.nodes == s.nodes + {base + HEADER}
            && s'.heap.start == s.heap.start && s'.heap.end == s.heap.end
  {
    hide Inv, Insert, KernelStep, KernelSafe, FreeOk, BestFit, Neighbours, Drawn, Opened, Blocks;
    var t, from, total := s.heap.tree, p - HEADER, s.live[p] + HEADER;
    SafeBounds(s, p);
    LeftAlone(t, from, total);
    SpineDraws(t, id, base, left);
    MayGiveBack(s, p, nu, a, b, id);
    OpenedAlone(s.heap, from, total);
    Freed(s, p, nu, t, t.right);
    LeftOfLeft(Br(a, One(b, mid, 16), top, 16, 2, One(id, base + DRAW, left - DRAW)), from, total, nu);
  }

  lemma LeftAlone<Id>(t: Tree<Id>, from: int, total: int)
    requires t.Br? && t.left.Br? && t.left.left.Nil? && 0 < total && 0 <= t.size && 0 <= t.left.size
    requires from + total < t.left.base < t.base
    ensures Neighbours(t, from, total, Nil, Nil) == (Nil, Nil)
  {
    assert Neighbours(t.left, from, total, Nil, Nil) == (Nil, Nil);
  }

  lemma SpineDraws<Id>(t: Tree<Id>, id: Id, base: int, left: int)
    requires t.Br? && t.size < DRAW <= left && t.right == One(id, base, left) && t.base < base
    requires t.left.Br? && t.left.left.Nil? && t.left.right.Nil?
    ensures BestFit(t, DRAW) == t.right && |Blocks(t)| <= 3
    ensures left > DRAW ==> Drawn(t, t.right) == t.(right := One(id, base + DRAW, left - DRAW))
  {
    hide Blocks, BestFit;
    SpineFew(t);
    SpineServes(t, base, left);
    assert Carve(t.right, base, base + DRAW, left - DRAW) == One(id, base + DRAW, left - DRAW);
  }

  lemma SpineFew<Id>(t: Tree<Id>)
    requires t.Br? && t.left.Br? && t.left.left.Nil? && t.left.right.Nil?
    requires t.right.Br? && t.right.left.Nil? && t.right.right.Nil?
    ensures |Blocks(t)| <= 3
  {
    hide Blocks;
    LeafBlocks(t.left);
    LeafBlocks(t.right);
    BlocksOf(t);
    FewBlocks(t, t.left.base, t.base, t.right.base);
  }

  lemma SpineServes<Id>(t: Tree<Id>, base: int, left: int)
    requires t.Br? && t.size < DRAW <= left && t.right.Br? && t.right == One(t.right.id, base, left)
    ensures BestFit(t, DRAW) == t.right
  {
    BestFitOfNil(t.right.left, DRAW);
    assert BestFit(t.right, DRAW) == t.right;
  }

  lemma {:induction false} LeftOfLeft<Id>(t: Tree<Id>, from: int, total: int, nu: Id)
    requires t.Br? && t.left.Br? && t.left.left.Nil? && t.left.right.Nil? && H(t.right) == 1
    requires from < t.left.base < t.base && total != 0
    ensures Insert(t, from, total, nu) == t.(left := t.left.(left := One(nu, from, total), height := 2), height := 3)
  {
    LeafLeft(t.left, from, total, nu);
    var l := t.left.(left := One(nu, from, total), height := 2);
    assert Measured(t.(left := l)) == t.(left := l, height := 3);
  }

  /** A root that leans left as soon as the last block is gone. */
  function Leaning<Id>(a: Id, top: int, b: Id, mid: int, c: Id, lo: int, height: int,
                       r: Tree<Id>): Tree<Id> {
    Br(a, Br(b, One(c, lo, 16), mid, 16, 2, Nil), top, 16, height, r)
  }

  /** The draw uses up the last block, and its deletion turns the root right. */
  lemma {:induction false} LeaningDrawn<Id>(t: Tree<Id>, a: Id, top: int, b: Id, mid: int, c: Id, lo: int, id: Id,
                                            base: int)
    requires t == Leaning(a, top, b, mid, c, lo, 3, One(id, base, DRAW)) && top < base
    ensures BestFit(t, DRAW) == t.right && Shrunk(t, t.right) == t.(right := One(id, base + DRAW, 0))
    ensures Drawn(t, t.right) == Br(b, One(c, lo, 16), mid, 16, 2, One(a, top, 16))
  {
    SpineServes(t, base, DRAW);
    hide BestFit;
    var l, r := t.left, One(id, base + DRAW, 0);
    assert Carve(t.right, base, base + DRAW, 0) == r;
    assert Delete(r, base + DRAW) == Nil;
    var n := t.(right := Nil);
    assert Measured(n) == n;
    assert Measured(n.(left := Nil)) == One(a, top, 16);
    assert l.right == Nil && H(l.left) == 1;
    assert RotateRight(n) == Br(b, One(c, lo, 16), mid, 16, 2, One(a, top, 16));
    assert SettleDelete(n) == RotateRight(n);
  }

  lemma LeavesFound<Id>(d: Tree<Id>)
    requires d.Br? && d.left.Br? && d.left.left.Nil? && d.left.right.Nil? && d.right.Br? && d.right.left.Nil?
    requires d.right.right.Nil? && d.id != d.left.id && d.id != d.right.id && d.left.id != d.right.id
    ensures Ids(d) == {d.id, d.left.id, d.right.id}
    ensures Sub(d, d.id) == d && Sub(d, d.left.id) == d.left && Sub(d, d.right.id) == d.right
  {
    LeafBlocks(d.left);
    LeafBlocks(d.right);
    assert Ids(d) == Ids(d.left) + {d.id} + Ids(d.right);
  }

  /** With the path going on to the inner side, unwinding links the two nodes as they were. */
  lemma {:induction false} Relinked<Id>(t: Tree<Id>, a: Id, top: int, b: Id, mid: int, c: Id, lo: int, id: Id,
                                        base: int, from: int)
    requires t == Leaning(a, top, b, mid, c, lo, 3, One(id, base, DRAW)) && lo < mid < from < top < base
    requires a != b && a != c && b != c && id != a && id != b && id != c
    ensures Resumed(t, t.right, from) == Leaning(a, top, b, mid, c, lo, 1, Nil)
    ensures Traceable(t, t.right, from)
  {
    LeaningDrawn(t, a, top, b, mid, c, lo, id, base);
    hide Drawn, Shrunk, BestFit;
    var z, d, l := Shrunk(t, t.right), Drawn(t, t.right), t.left;
    LeavesFound(d);
    assert Strung(l, d, z, from) == l;
    assert Strung(t, d, z, from) == t.(right := Nil, height := 1);
    var u := t.(right := Nil, height := 1);
    assert Row(l.left) == [(lo, 16)] && Row(d.right) == [(top, 16)];
    assert Row(l) == [(lo, 16)] + [(mid, 16)];
    assert Row(d) == [(lo, 16)] + [(mid, 16)] + [(top, 16)];
    assert Row(u) == [(lo, 16)] + [(mid, 16)] + [(top, 16)];
    assert SamePath(l, l, from);
  }

  /** With the path going on to the outer side, unwinding makes the two nodes each other's child. */
  lemma {:induction false} Knots<Id>(t: Tree<Id>, a: Id, top: int, b: Id, mid: int, c: Id, lo: int, id: Id,
                                     base: int, from: int)
    requires t == Leaning(a, top, b, mid, c, lo, 3, One(id, base, DRAW)) && lo < from < mid < top < base
    requires a != b && a != c && b != c && id != a && id != b && id != c
    ensures !Distinct(Resumed(t, t.right, from))
  {
    LeaningDrawn(t, a, top, b, mid, c, lo, id, base);
    hide Drawn, Shrunk, BestFit;
    var z, d, l := Shrunk(t, t.right), Drawn(t, t.right), t.left;
    LeavesFound(d);
    assert Strung(l, d, z, from).right == d.right;
    assert a in Ids(Strung(l, d, z, from));
  }

  /** The insertion after the turn is undone. */
  lemma {:induction false} IntoLeaning<Id>(a: Id, top: int, b: Id, mid: int, c: Id, lo: int, from: int, nu: Id)
    requires lo < mid < from < top
    ensures var u := Leaning(a, top, b, mid, c, lo, 1, Nil);
            && !PathTips(u, from, 16, nu)
            && Insert(u, from, 16, nu) ==
               Br(nu, Br(b, One(c, lo, 16), mid, 16, 2, Nil), from, 16, 3, One(a, top, 16))
  {
    var u := Leaning(a, top, b, mid, c, lo, 1, Nil);
    var l, leaf := u.left, One(nu, from, 16);
    assert Insert(l.right, from, 16, nu) == leaf;
    var m := l.(right := leaf);
    assert Measured(m) == m && SettleInsert(m, from) == m;
    assert Insert(l, from, 16, nu) == m;
    assert !PathTips(l, from, 16, nu);
    var n := u.(left := m, height := 3);
    assert Measured(u.(left := m)) == n;
    var q := Br(nu, l, from, 16, 3, Nil);
    assert Measured(Br(nu, l, from, 16, 1, Nil)) == q;
    assert RotateLeft(m) == q;
    assert Measured(u.(left := Nil)) == One(a, top, 16);
    assert RotateRight(n.(left := q)) == q.(right := One(a, top, 16), height := 3);
  }

  lemma LeaningAlone<Id>(t: Tree<Id>, a: Id, top: int, b: Id, mid: int, c: Id, lo: int, id: Id, base: int, from: int)
    requires t == Leaning(a, top, b, mid, c, lo, 3, One(id, base, DRAW)) && from + 16 < top < base
    requires mid + 16 < from || (lo + 16 < from && from + 16 < mid)
    ensures Neighbours(t, from, 16, Nil, Nil) == (Nil, Nil)
  {
    var l, q := t.left, One(c, lo, 16);
    assert l.left == q && l.right == Nil && q.right == Nil;
    if from < mid { assert Neighbours(q, from, 16, Nil, Nil) == (Nil, Nil); }
    assert Neighbours(l, from, 16, Nil, Nil) == (Nil, Nil);
  }

  lemma LeaningIds<Id>(a: Id, top: int, b: Id, mid: int, c: Id, lo: int, id: Id, base: int)
    ensures Ids(Leaning(a, top, b, mid, c, lo, 3, One(id, base, DRAW))) == {a, b, c, id}
  {
    var t := Leaning(a, top, b, mid, c, lo, 3, One(id, base, DRAW));
    LeafBlocks(t.left.left);
    LeafBlocks(t.right);
    assert Ids(t.left) == {b, c};
  }

  /** The last free: right when its block lies on the inner side of the turn, no tree when on the outer side. */
  lemma {:induction false} LastTurns<Id>(s: KernelState<Id>, a: Id, top: int, b: Id, mid: int, c: Id, lo: int, id: Id,
                                         base: int, p: int, nu: Id)
    requires s.Up? && KernelSafe(s) && s.heap.tree == Leaning(a, top, b, mid, c, lo, 3, One(id, base, DRAW))
    requires a != b && a != c && b != c && id != a && id != b && id != c && nu !in {a, b, c, id}
    requires lo < mid < top < base && p in s.live && p !in s.nodes && s.live[p] == 8 && p + 8 < top
    requires mid + 16 < p - HEADER || (lo + 16 < p - HEADER && p + 8 < mid)
    ensures ClientMay(s, GiveBack(p, nu))
    ensures var s' := KernelStep(s, GiveBack(p, nu));
            if p - HEADER < mid then s' == Down(Knotted)
            else
              && s'.Up?
              && s'.heap.tree == Br(nu, Br(b, One(c, lo, 16), mid, 16, 2, Nil), p - HEADER, 16, 3, One(a, top, 16))
  {
    hide Inv, KernelSafe, Neighbours, Leaning, KernelStep, PutBack;
    var t, from := s.heap.tree, p - HEADER;
    LeaningIds(a, top, b, mid, c, lo, id, base);
    LeaningAlone(t, a, top, b, mid, c, lo, id, base, from);
    StepPutsBack(s, p, nu);
    if from < mid {
      KnotsBack(s.heap, t, a, top, b, mid, c, lo, id, base, from, nu);
    } else {
      MovesBack(s, t, a, top, b, mid, c, lo, id, base, p, nu);
    }
  }

  lemma {:induction false} KnotsBack<Id>(h: Heap<Id>, t: Tree<Id>, a: Id, top: int, b: Id, mid: int, c: Id, lo: int,
                                         id: Id, base: int, from: int, nu: Id)
    requires t == Leaning(a, top, b, mid, c, lo, 3, One(id, base, DRAW)) && lo < from < mid < top < base
    requires a != b && a != c && b != c && id != a && id != b && id != c
    ensures PutBack(h, t, from, 16, nu) == Knotted
  {
    LeaningDrawn(t, a, top, b, mid, c, lo, id, base);
    Knots(t, a, top, b, mid, c, lo, id, base, from);
    hide BestFit, Resumed, Distinct, Leaning;
  }

  lemma {:induction false} MovesBack<Id>(s: KernelState<Id>, t: Tree<Id>, a: Id, top: int, b: Id, mid: int, c: Id,
                                         lo: int, id: Id, base: int, p: int, nu: Id)
    requires s.Up? && KernelSafe(s) && t == s.heap.tree && t == Leaning(a, top, b, mid, c, lo, 3, One(id, base, DRAW))
    requires a != b && a != c && b != c && id != a && id != b && id != c && lo < mid < p - HEADER < top < base
    requires p in s.live && s.live[p] == 8 && Neighbours(t, p - HEADER, 16, Nil, Nil) == (Nil, Nil)
    ensures var o := PutBack(s.heap, t, p - HEADER, 16, nu);
            && o.Released?
            && o.heap.tree == Br(nu, Br(b, One(c, lo, 16), mid, 16, 2, Nil), p - HEADER, 16, 3, One(a, top, 16))
  {
    OpenedAlone(s.heap, p - HEADER, 16);
    LeaningDrawn(t, a, top, b, mid, c, lo, id, base);
    Relinked(t, a, top, b, mid, c, lo, id, base, p - HEADER);
    IntoLeaning(a, top, b, mid, c, lo, p - HEADER, nu);
    hide Inv, FreeOk, Distinct, BestFit, Neighbours, Insert, PathTips, Traceable, Drawn, Leaning, Opened, Shrunk;
    hide Resumed, PutBack;
    assert Inv(s.heap, s.live);
    TraceablePutsBack(s.heap, s.live, p, t, t.right, nu);
  }

  lemma {:induction false} TraceablePutsBack<Id>(h: Heap<Id>, live: map<int, int>, p: int, t: Tree<Id>, b: Tree<Id>,
                                                 nu: Id)
    requires Inv(h, live) && Distinct(h.tree) && p in live && b == BestFit(t, DRAW) && b.Br?
    requires Opened(h, p - HEADER, live[p] + HEADER) == (t, p - HEADER, live[p] + HEADER)
    requires Traceable(t, b, p - HEADER) && !PathTips(Resumed(t, b, p - HEADER), p - HEADER, live[p] + HEADER, nu)
    ensures var o := PutBack(h, t, p - HEADER, live[p] + HEADER, nu);
            o.Released? && o.heap.tree == Insert(Resumed(t, b, p - HEADER), p - HEADER, live[p] + HEADER, nu)
  {
    hide Inv, Along, AlongFaults, Resumed, Distinct, BestFit, Blocks, Insert, PathTips, Traceable;
    hide Ordered, Positive, NotAbove, Overlapped, PathClashes, Opened, Right, FreePointerDrawing, FreeDrawing;
    var from, total := p - HEADER, live[p] + HEADER;
    FreeDrawingSafe(h, live, p, nu);
    LiveBounds(h, live, p);
    OpenedTree(h, from, total);
    OpenedFacts(h, from, total, nu);
    FoundServes(t);
    PutBackExactly(h, t, b, from, total, nu);
    TraceableSearches(t, b, h.start, h.end, from, total, nu);
  }

  /** Eight requests of 8 bytes and one that leaves 112. */
  function Nine<Id>(): seq<Op<Id>> {
    Eights(8) + [Request(false, 0xFFF08)]
  }

  lemma {:induction false} NineAsked<Id>(nu: Id)
    ensures var s := KernelRun(Fresh(nu), Nine());
            && Reaches(Fresh(nu), Nine(), s) && s.Up? && KernelSafe(s) && s.nodes == {}
            && s.heap.tree == One(nu, K + KHEAP_INITIAL - 112, 112)
            && forall p :: p in {K + 0x68, K + 0x28, K + 0x48, K + 0x08} ==> p in s.live && s.live[p] == 8
  {
    hide KernelStep, KernelSafe, ClientMay, KernelMay, KernelRun, Alloc;
    EightsAsked(nu, 8);
    var s := KernelRun(Fresh(nu), Eights(8));
    assert K + 16 * 6 + 8 in s.live && K + 16 * 2 + 8 in s.live;
    assert K + 16 * 4 + 8 in s.live && K + 16 * 0 + 8 in s.live;
    Asked(s, nu, K + 128, KHEAP_INITIAL - 128, 0xFFF08);
    And(Fresh(nu), Eights(8), s, Request(false, 0xFFF08), Nine());
  }

  /** Those requests, and four frees of 16-byte blocks. */
  function TurningRun<Id>(second: int, fourth: int, a: Id, b: Id, c: Id, d: Id): seq<Op<Id>> {
    Nine() + [GiveBack(K + 0x68, a), GiveBack(K + second, b), GiveBack(K + 0x08, c), GiveBack(K + fourth, d)]
  }

  /**
    Thirteen calls. The last free uses up the last block, whose deletion turns the root. If its block lies
    between the root's and the left child's, unwinding undoes the turn and the heap is right; if it lies
    below the left child's, unwinding leaves those two nodes as each other's children, and no tree at all.
   */
  lemma {:induction false} TurnRuns<Id>(nu: Id, a: Id, b: Id, c: Id, d: Id, second: int)
    requires nu !in {a, b, c, d} && a !in {b, c, d} && b !in {c, d} && c != d && second in {0x28, 0x48}
    ensures var ops := TurningRun(second, 0x70 - second, a, b, c, d);
            var s := KernelRun(Fresh(nu), ops);
            && KernelMay(Fresh(nu), ops)
            && if second == 0x48 then s == Down(Knotted)
               else
                 && s.Up?
                 && s.heap.tree == Br(d, Br(b, One(c, K, 16), K + 0x20, 16, 2, Nil), K + 0x40, 16, 3,
                                      One(a, K + 0x60, 16))
  {
    hide KernelStep, KernelSafe, ClientMay, KernelMay, KernelRun, Nine, Fresh;
    NineAsked(nu);
    var s0, e, s9 := Fresh(nu), Nine<Id>(), KernelRun(Fresh(nu), Nine());
    var f, g, h := GiveBack(K + 0x68, a), GiveBack(K + second, b), GiveBack(K + 0x08, c);
    var i := GiveBack(K + 0x70 - second, d);
    FirstFree(s9, nu, K + KHEAP_INITIAL - 112, 112, K + 0x68, a);
    var s10 := KernelStep(s9, f);
    And(s0, e, s9, f, e + [f]);
    SecondFree(s10, nu, a, K + 0x60, 16, K + KHEAP_INITIAL - 84, 84, K + second, b);
    var s11 := KernelStep(s10, g);
    And(s0, e + [f], s10, g, e + [f, g]);
    ThirdFree(s11, a, K + 0x60, b, K + second - HEADER, nu, K + KHEAP_INITIAL - 56, 56, K + 0x08, c);
    var s12 := KernelStep(s11, h);
    And(s0, e + [f, g], s11, h, e + [f, g, h]);
    LastTurns(s12, a, K + 0x60, b, K + second - HEADER, c, K, nu, K + KHEAP_INITIAL - 28, K + 0x70 - second, d);
    And(s0, e + [f, g, h], s12, i, e + [f, g, h, i]);
  }
}
