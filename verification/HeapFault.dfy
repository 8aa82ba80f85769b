/**
  Faults seen from the heap: a run of requests and frees, all of them allowed, whose last free
  follows a missing pointer, and a bound on the free blocks below which no call ever does.
 */
module HeapFault {
  import opened Machine
  import opened AvlTree
  import opened FreeBlocks
  import opened HeapModel
  import opened InsertionFault
  import opened FaultPath

  // ---------------------------------------------------------------- a tree of keys as a tree of blocks

  const START := 4096
  const END := 8192
  const BLOCK := 16   // a request of 8 bytes and its header

  /** Every other block of the heap, by number. */
  function Place(k: int): int {
    START + 2 * BLOCK * k
  }

  /** The tree of blocks that stands for a tree of keys. */
  function Spread(t: Tree<()>): Tree<()> {
    if t.Nil? then Nil else Br((), Spread(t.left), Place(t.base), BLOCK, t.height, Spread(t.right))
  }

  lemma {:induction false} SpreadRotations(t: Tree<()>)
    requires t.Br?
    ensures RotateRight(Spread(t)) == Spread(RotateRight(t))
    ensures RotateLeft(Spread(t)) == Spread(RotateLeft(t))
    ensures Measured(Spread(t)) == Spread(Measured(t))
  {
    SpreadHeight(t.left);
    SpreadHeight(t.right);
    if t.left.Br? {
      var y := t.left;
      SpreadHeight(y.left);
      SpreadHeight(y.right);
      assert Spread(y) == Br((), Spread(y.left), Place(y.base), BLOCK, y.height, Spread(y.right));
    }
    if t.right.Br? {
      var y := t.right;
      SpreadHeight(y.left);
      SpreadHeight(y.right);
      assert Spread(y) == Br((), Spread(y.left), Place(y.base), BLOCK, y.height, Spread(y.right));
    }
  }

  lemma SpreadHeight(t: Tree<()>)
    ensures H(Spread(t)) == H(t) && (Spread(t).Nil? <==> t.Nil?)
  {
  }

  /** Rebalancing sees only the order of the keys and the stored heights. */
  lemma {:induction false} SpreadSettles(t: Tree<()>, k: int)
    requires t.Br?
    ensures SettleInsert(Spread(t), Place(k)) == Spread(SettleInsert(t, k))
    ensures SettleFaults(Spread(t), Place(k)) == SettleFaults(t, k)
  {
    hide RotateRight, RotateLeft;
    var n := Measured(t);
    SpreadRotations(t);
    SpreadRotations(n);
    SpreadHeight(n.left);
    SpreadHeight(n.right);
    if n.left.Br? {
      SpreadRotations(n.left);
      SpreadRotations(n.(left := RotateLeft(n.left)));
    }
    if n.right.Br? {
      SpreadRotations(n.right);
      SpreadRotations(n.(right := RotateRight(n.right)));
    }
  }

  lemma {:induction false} SpreadInserts(t: Tree<()>, k: int)
    ensures Insert(Spread(t), Place(k), BLOCK, ()) == Spread(Insert(t, k, 1, ()))
    ensures InsertFaults(Spread(t), Place(k), BLOCK, ()) == InsertFaults(t, k, 1, ())
    decreases t
  {
    hide SettleInsert, SettleFaults;
    if t.Br? && k < t.base {
      SpreadInserts(t.left, k);
      SpreadSettles(t.(left := Insert(t.left, k, 1, ())), k);
    } else if t.Br? && k > t.base {
      SpreadInserts(t.right, k);
      SpreadSettles(t.(right := Insert(t.right, k, 1, ())), k);
    }
  }

  /** Blocks of different numbers neither overlap nor touch. */
  lemma {:induction false} FarApart(t: Tree<()>, k: int)
    requires Ordered(t) && k !in Blocks(t)
    ensures !PathClashes(Spread(t), Place(k), BLOCK)
    ensures Neighbours(Spread(t), Place(k), BLOCK, Nil, Nil) == (Nil, Nil)
    decreases t
  {
    if t.Br? {
      KeySide(t, k);
      KeySide(t, t.base);
      FarApart(Toward(t, k), k);
    }
  }

  /** Freeing a block with no free neighbour is inserting its number. */
  lemma {:induction false} FreeInserts(h: Heap<()>, t: Tree<()>, k: int)
    requires h.start == START && h.end == END && h.tree == Spread(t) && Ordered(t) && k !in Blocks(t) && 0 <= k <= 21
    requires HeaderAt(h, Place(k)) == Header(MAGIC, 8)
    ensures FreePointer(h, Place(k) + HEADER, ()) ==
            if InsertFaults(t, k, 1, ()) then Crash else Freed(h.(tree := Spread(Insert(t, k, 1, ()))))
  {
    hide Insert, InsertFaults, PathClashes, Neighbours;
    FarApart(t, k);
    SpreadInserts(t, k);
  }

  // ---------------------------------------------------------------- the trees of the run

  /** The numbers of the blocks given back, in order. */
  const NUMBERS := KEYS + [15]

  lemma {:induction false} NumbersDiffer(n: nat, k: int)
    requires n <= 10 && k in NUMBERS[..n]
    ensures k != NUMBERS[n] && 0 <= NUMBERS[n] <= 21
  {
    assert NUMBERS == [20, 21, 8, 5, 4, 10, 13, 17, 19, 2, 15];
  }

  /** The tree of the first `n` numbers. */
  ghost function Planted(n: nat): Tree<()>
    requires n <= 10
  {
    if n == 0 then Nil else Insert(Planted(n - 1), NUMBERS[n - 1], 1, ())
  }

  lemma {:induction false} PlantedHolds(n: nat)
    requires n <= 10
    ensures Sound(Planted(n)) && forall k :: k in Blocks(Planted(n)) ==> k in NUMBERS[..n]
  {
    hide Insert, Ordered, Positive, Blocks;
    if n == 0 {
      PlantedNothing();
    } else {
      PlantedHolds(n - 1);
      InsertRefinesMap(Planted(n - 1), NUMBERS[n - 1], 1, ());
      assert NUMBERS[..n] == NUMBERS[..n - 1] + [NUMBERS[n - 1]];
    }
  }

  lemma PlantedNothing()
    ensures Sound(Planted(0)) && Blocks(Planted(0)) == map[]
  {
  }

  /** Only the last of the eleven insertions faults. */
  lemma {:induction false} PlantedFaults(n: nat)
    requires n <= 10
    ensures InsertFaults(Planted(n), NUMBERS[n], 1, ()) <==> n == 10
  {
    hide Insert, InsertFaults;
    var t := ElevenInsertionsFault();
    PlantedIs(t, n);
    if n < 10 { assert Grows(t[n], KEYS[n], t[n + 1]); }
  }

  lemma {:induction false} PlantedIs(t: seq<Tree<()>>, n: nat)
    requires n <= 10 && |t| == 11 && t[0] == Nil && forall i :: 0 <= i < 10 ==> Grows(t[i], KEYS[i], t[i + 1])
    ensures Planted(n) == t[n]
  {
    hide Insert, InsertFaults;
    if n > 0 {
      PlantedIs(t, n - 1);
      assert Grows(t[n - 1], KEYS[n - 1], t[n]);
    }
  }

  // ---------------------------------------------------------------- the run

  /** Requests of 8 bytes fill the heap from its start; `n` have been served. */
  ghost predicate Filled(s: State<()>, n: nat) {
    && s.Running? && s.heap.start == START && s.heap.end == END && n <= 44
    && s.heap.tree == Br((), Nil, START + BLOCK * n, END - START - BLOCK * n, 1, Nil)
    && Stocked(s, n)
  }

  /** The first `n` blocks are live and have their headers. */
  ghost predicate Stocked(s: State<()>, n: nat) {
    s.Running? && forall i :: 0 <= i < n ==> HasBlock(s, START + BLOCK * i)
  }

  ghost predicate HasBlock(s: State<()>, addr: int) {
    s.Running? && HeaderAt(s.heap, addr) == Header(MAGIC, 8) && addr + HEADER in s.live
  }

  /** A request served from the only free block. */
  lemma {:induction false} ServedByOnly(s: State<()>, base: int, left: int, size: int)
    requires s.Running? && s.heap.tree == Br((), Nil, base, left, 1, Nil)
    requires 0 <= base && 0 <= size && size + HEADER <= left && base + left < WORD
    ensures Allowed(s, Request(false, size))
    ensures Step(s, Request(false, size)) ==
            Running(Stamped(s.heap.(tree := if left == size + HEADER then Nil
                                            else Br((), Nil, base + size + HEADER, left - size - HEADER, 1, Nil)),
                            base, size),
                    s.live[base + HEADER := size])
  {
    OnlyBlockServes(s.heap, (), base, left, size);
  }

  lemma {:induction false} FillOne(s: State<()>, n: nat)
    requires Filled(s, n) && n < 44
    ensures Allowed(s, Request(false, 8)) && Filled(Step(s, Request(false, 8)), n + 1)
  {
    hide Allowed, Step;
    ServedByOnly(s, START + BLOCK * n, END - START - BLOCK * n, 8);
    var t := Step(s, Request(false, 8));
    forall i | 0 <= i < n + 1 ensures HasBlock(t, START + BLOCK * i) {
      if i < n { assert HasBlock(s, START + BLOCK * i); }
    }
  }

  lemma {:induction false} Filling(s: State<()>, n: nat, ops: seq<Op<()>>)
    requires Filled(s, n) && n + |ops| <= 44 && forall i :: 0 <= i < |ops| ==> ops[i] == Request(false, 8)
    ensures RunAllowed(s, ops) && Filled(Run(s, ops), n + |ops|)
    decreases |ops|
  {
    hide Filled, Allowed, Step;
    if ops != [] {
      FillOne(s, n);
      Filling(Step(s, ops[0]), n + 1, ops[1..]);
    }
  }

  /** Nothing is free but the first `n` blocks given back; all others are still there. */
  ghost predicate Emptied(s: State<()>, n: nat) {
    && n <= 10 && s.Running? && s.heap.start == START && s.heap.end == END && s.heap.tree == Spread(Planted(n))
    && forall i :: n <= i <= 10 ==> HasBlock(s, Place(NUMBERS[i]))
  }

  lemma {:induction false} TakeRest(s: State<()>)
    requires Filled(s, 44)
    ensures Allowed(s, Request(false, 3384)) && Emptied(Step(s, Request(false, 3384)), 0)
  {
    hide Allowed, Step;
    ServedByOnly(s, START + BLOCK * 44, END - START - BLOCK * 44, 3384);
    var t := Step(s, Request(false, 3384));
    forall i | 0 <= i <= 10 ensures HasBlock(t, Place(NUMBERS[i])) {
      assert NUMBERS == [20, 21, 8, 5, 4, 10, 13, 17, 19, 2, 15];
      assert Place(NUMBERS[i]) == START + BLOCK * (2 * NUMBERS[i]);
      assert HasBlock(s, START + BLOCK * (2 * NUMBERS[i]));
    }
  }

  /** The free of block `i` of the list. */
  function Free(i: nat): Op<()>
    requires i <= 10
  {
    GiveBack(Place(NUMBERS[i]) + HEADER, ())
  }

  lemma {:induction false} FreeOne(s: State<()>, n: nat)
    requires Emptied(s, n)
    ensures Allowed(s, Free(n))
    ensures if n == 10 then Step(s, Free(n)) == Stopped else Emptied(Step(s, Free(n)), n + 1)
  {
    hide Insert, InsertFaults, FreePointer;
    PlantedHolds(n);
    PlantedFaults(n);
    assert HasBlock(s, Place(NUMBERS[n]));
    if NUMBERS[n] in NUMBERS[..n] { NumbersDiffer(n, NUMBERS[n]); }
    assert NUMBERS == [20, 21, 8, 5, 4, 10, 13, 17, 19, 2, 15];
    FreeInserts(s.heap, Planted(n), NUMBERS[n]);
    if n < 10 {
      var t := Step(s, Free(n));
      forall i | n + 1 <= i <= 10 ensures HasBlock(t, Place(NUMBERS[i])) {
        assert HasBlock(s, Place(NUMBERS[i]));
        assert NUMBERS[n] in NUMBERS[..i];
        NumbersDiffer(i, NUMBERS[n]);
      }
    }
  }

  /** The frees from block `i` of the list up to, not including, block `j`. */
  function Frees(i: nat, j: nat): seq<Op<()>>
    requires i <= j <= 11
    decreases j - i
  {
    if i == j then [] else [Free(i)] + Frees(i + 1, j)
  }

  lemma {:induction false} Freeing(s: State<()>, i: nat, j: nat)
    requires Emptied(s, i) && i <= 10 && i <= j <= 11
    ensures RunAllowed(s, Frees(i, j))
    ensures if j == 11 then Run(s, Frees(i, j)) == Stopped
            else Run(s, Frees(i, j)).Running? && Emptied(Run(s, Frees(i, j)), j)
    decreases j - i
  {
    hide Allowed, Step, Free, Planted, HasBlock;
    if i < j {
      FreeOne(s, i);
      assert Frees(i, j)[1..] == Frees(i + 1, j);
      if i == 10 {
        assert Frees(11, 11) == [];
      } else {
        Freeing(Step(s, Free(i)), i + 1, j);
      }
    }
  }

  /** 44 requests of 8 bytes, one for the rest of the heap, and the frees of the first `n` blocks of the list. */
  function Calls(n: nat): seq<Op<()>>
    requires n <= 11
  {
    seq(44, _ => Request(false, 8)) + [Request(false, 3384)] + Frees(0, n)
  }

  lemma {:induction false} RunSplits(s: State<()>, a: seq<Op<()>>, b: seq<Op<()>>)
    requires RunAllowed(s, a) && RunAllowed(Run(s, a), b)
    ensures RunAllowed(s, a + b) && Run(s, a + b) == Run(Run(s, a), b)
    decreases |a|
  {
    hide Allowed, Step;
    if a == [] {
      assert a + b == b;
    } else {
      assert (a + b)[1..] == a[1..] + b;
      RunSplits(Step(s, a[0]), a[1..], b);
    }
  }

  /**
    On a fresh heap of one page, a run of allowed calls that the eleventh free ends by following a
    missing pointer; up to the tenth it goes on.
   */
  lemma {:induction false} AllowedRunStops(max: int)
    ensures var s := Running(Initial(START, END, max, ()), map[]);
            && RunAllowed(s, Calls(11)) && Run(s, Calls(11)) == Stopped
            && Run(s, Calls(10)).Running? && Calls(10) < Calls(11)
  {
    hide Run, RunAllowed, Step, Emptied, Frees, Initial;
    var s := Running(Initial(START, END, max, ()), map[]);
    var all := seq(44, _ => Request(false, 8)) + [Request(false, 3384)];
    TakesAll(s, max);
    var empty := Run(s, all);
    Freeing(empty, 0, 10);
    Freeing(empty, 0, 11);
    RunSplits(s, all, Frees(0, 10));
    RunSplits(s, all, Frees(0, 11));
    FreesLonger(0);
  }

  /** The requests take the whole heap. */
  lemma {:induction false} TakesAll(s: State<()>, max: int)
    requires s == Running(Initial(START, END, max, ()), map[])
    ensures var all := seq(44, _ => Request(false, 8)) + [Request(false, 3384)];
            RunAllowed(s, all) && Emptied(Run(s, all), 0)
  {
    hide Allowed, Step, Emptied;
    var fill := seq(44, _ => Request(false, 8));
    assert Filled(s, 0);
    Filling(s, 0, fill);
    var full := Run(s, fill);
    TakeRest(full);
    OneOp(full, Request(false, 3384));
    RunSplits(s, fill, [Request(false, 3384)]);
  }

  lemma OneOp(s: State<()>, op: Op<()>)
    requires Allowed(s, op)
    ensures RunAllowed(s, [op]) && Run(s, [op]) == Step(s, op)
  {
    hide Allowed, Step;
    assert [op][1..] == [];
  }

  lemma {:induction false} FreesLonger(i: nat)
    requires i <= 10
    ensures Frees(i, 11) == Frees(i, 10) + [Free(10)]
    decreases 10 - i
  {
    if i < 10 { FreesLonger(i + 1); } else { assert Frees(11, 11) == []; }
  }

  // ---------------------------------------------------------------- when no call faults

  /** With at most three free blocks no allocation follows a missing pointer. */
  lemma {:induction false} FewBlocksAlloc<Id>(h: Heap<Id>, align: bool, size: int)
    requires FreeOk(h) && |Blocks(h.tree)| <= 3
    ensures Alloc(h, align, size).Done?
  {
    hide InsertFaults, Insert, BestFit, Blocks, Carved;
    if h.tree.Br? {
      var best := BestFit(h.tree, Need(align, size));
      if best.Br? {
        FewBlocksNeverFault(h.tree, best.base, Wrap(Placed(true, best.base) - best.base), h.tree.id);
      }
    }
  }

  /** Nor does a free, whatever is freed. */
  lemma {:induction false} FewBlocksFree<Id>(h: Heap<Id>, base: int, size: int, nu: Id)
    requires FreeOk(h) && |Blocks(h.tree)| <= 3
    ensures !FreeRange(h, base, size, nu).Crash?
  {
    hide InsertFaults, Insert, Delete, Blocks, PathClashes, Neighbours, Cut, Sound, NotAbove;
    var (l, r) := Neighbours(h.tree, base, size, Nil, Nil);
    CutKeepsFew(h.tree, l);
    CutKeepsFew(Cut(h.tree, l), r);
    var from := if l.Br? then l.base else base;
    FewBlocksNeverFault(Cut(Cut(h.tree, l), r), from, size + SizeOf(l) + SizeOf(r), nu);
  }

  lemma {:induction false} CutKeepsFew<Id>(t: Tree<Id>, n: Tree<Id>)
    requires Sound(t) && NotAbove(t)
    ensures Sound(Cut(t, n)) && NotAbove(Cut(t, n)) && |Blocks(Cut(t, n))| <= |Blocks(t)|
  {
    hide Cut;
    CutRefines(t, n);
    FewerKeys(Without(Blocks(t), n), Blocks(t));
  }

  lemma {:induction false} FewerKeys(a: map<int, int>, b: map<int, int>)
    requires forall x :: x in a ==> x in b
    ensures |a| <= |b|
  {
    forall x | x in a.Keys ensures x in b.Keys {
      assert x in a;
    }
    assert b.Keys == a.Keys + (b.Keys - a.Keys);
  }

  /** At no point of the run are there more than three free blocks. */
  ghost predicate StaysFew<Id>(s: State<Id>, ops: seq<Op<Id>>)
    decreases |ops|
  {
    && (s.Running? ==> |Blocks(s.heap.tree)| <= 3)
    && (ops != [] ==> StaysFew(Step(s, ops[0]), ops[1..]))
  }

  /** Over every run that keeps to three free blocks the heap is safe without reservation: it never stops. */
  lemma {:induction false} FewBlocksRun<Id>(s: State<Id>, ops: seq<Op<Id>>)
    requires Safe(s) && s.Running? && RunAllowed(s, ops) && StaysFew(s, ops)
    ensures Run(s, ops).Running? && Safe(Run(s, ops))
    decreases |ops|
  {
    hide Alloc, FreeRange, Allowed, Blocks;
    if ops != [] {
      StepSafe(s, ops[0]);
      FewBlocksStep(s, ops[0]);
      FewBlocksRun(Step(s, ops[0]), ops[1..]);
    }
  }

  lemma {:induction false} FewBlocksStep<Id>(s: State<Id>, op: Op<Id>)
    requires s.Running? && FreeOk(s.heap) && |Blocks(s.heap.tree)| <= 3
    ensures Step(s, op).Running?
  {
    hide Alloc, FreeRange, FreeOk, Blocks;
    match op
    case Request(align, size) => FewBlocksAlloc(s.heap, align, size);
    case GiveBack(ptr, nu) =>
      var hd := HeaderAt(s.heap, Wrap(ptr - HEADER));
      FewBlocksFree(s.heap, Wrap(ptr - HEADER), Wrap(hd.size + HEADER), nu);
    case Scribble(headers) =>
  }
}
