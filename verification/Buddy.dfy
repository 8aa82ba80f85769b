/**
  The physical frame allocator as a value: eight levels of bits, where level 0 has one bit for
  every frame and each level halves the one below. A set bit is meant to say that the whole
  block is free.
 */
module Buddy {

  const MAX_ORDER := 7

  type Levels = seq<seq<bool>>

  /** Left shift. */
  function Shl(x: nat, k: nat): nat {
    if k == 0 then x else 2 * Shl(x, k - 1)
  }

  /** Right shift. */
  function Shr(x: nat, k: nat): nat {
    if k == 0 then x else Shr(x, k - 1) / 2
  }

  /** One bit above for every two below, and the buddy rule: it is set exactly when both are. */
  ghost predicate Pairs(low: seq<bool>, high: seq<bool>) {
    && |low| == 2 * |high|
    && forall i :: 0 <= i < |high| ==> (high[i] <==> low[2 * i] && low[2 * i + 1])
  }

  /** Eight levels, each half as long as the one below; the frame count is a multiple of 128. */
  ghost predicate Shaped(lv: Levels) {
    && |lv| == MAX_ORDER + 1
    && forall j :: 1 <= j <= MAX_ORDER ==> |lv[j - 1]| == 2 * |lv[j]|
  }

  /** The buddy rule between any two neighbouring levels. */
  ghost predicate Coherent(lv: Levels) {
    && |lv| == MAX_ORDER + 1
    && forall j :: 1 <= j <= MAX_ORDER ==> Pairs(lv[j - 1], lv[j])
  }

  lemma CoherentShaped(lv: Levels)
    requires Coherent(lv)
    ensures Shaped(lv)
  {
    forall j | 1 <= j <= MAX_ORDER ensures |lv[j - 1]| == 2 * |lv[j]| {
      assert Pairs(lv[j - 1], lv[j]);
    }
  }

  /** All frames of block `i` of order `j` are free. */
  ghost predicate BlockFree(free: seq<bool>, i: nat, j: nat) {
    forall f :: Shl(i, j) <= f < Shl(i + 1, j) && f < |free| ==> free[f]
  }

  // ---------------------------------------------------------------- shifts

  lemma {:induction false} ShlMonotone(x: nat, y: nat, k: nat)
    requires x <= y
    ensures Shl(x, k) <= Shl(y, k)
    decreases k
  {
    if k > 0 { ShlMonotone(x, y, k - 1); }
  }

  lemma {:induction false} ShlDouble(x: nat, k: nat)
    ensures Shl(2 * x, k) == Shl(x, k + 1) && Shl(2 * x + 2, k) == Shl(x + 1, k + 1)
    decreases k
  {
    if k > 0 { ShlDouble(x, k - 1); }
  }

  lemma {:induction false} LevelLength(lv: Levels, j: nat)
    requires Shaped(lv) && j <= MAX_ORDER
    ensures |lv[0]| == Shl(|lv[j]|, j)
    decreases j
  {
    if j > 0 {
      LevelLength(lv, j - 1);
      ShlDouble(|lv[j]|, j - 1);
    }
  }

  /** The buddy rule at every level says that a set bit means a block of free frames, and conversely. */
  lemma {:induction false} BitMeansFree(lv: Levels, j: nat, i: nat)
    requires Coherent(lv) && j <= MAX_ORDER && i < |lv[j]|
    ensures lv[j][i] <==> BlockFree(lv[0], i, j)
    ensures Shl(i + 1, j) <= |lv[0]|
    decreases j
  {
    CoherentShaped(lv);
    LevelLength(lv, j);
    ShlMonotone(i + 1, |lv[j]|, j);
    if j == 0 {
      assert Shl(i, 0) == i && Shl(i + 1, 0) == i + 1;
    } else {
      assert Pairs(lv[j - 1], lv[j]);
      BitMeansFree(lv, j - 1, 2 * i);
      BitMeansFree(lv, j - 1, 2 * i + 1);
      HalvesMakeBlock(lv[0], i, j);
    }
  }

  lemma {:induction false} HalvesMakeBlock(free: seq<bool>, i: nat, j: nat)
    requires j > 0
    ensures BlockFree(free, i, j) <==> BlockFree(free, 2 * i, j - 1) && BlockFree(free, 2 * i + 1, j - 1)
  {
    ShlDouble(i, j - 1);
    ShlMonotone(2 * i, 2 * i + 1, j - 1);
    ShlMonotone(2 * i + 1, 2 * i + 2, j - 1);
  }

  // ---------------------------------------------------------------- allocation

  /** Clears bits `lo` up to `hi` of one level. */
  function Cleared(bits: seq<bool>, lo: nat, hi: nat): (r: seq<bool>)
    ensures |r| == |bits|
    ensures forall i :: 0 <= i < |bits| ==> r[i] == (bits[i] && !(lo <= i < hi))
  {
    seq(|bits|, i requires 0 <= i < |bits| => bits[i] && !(lo <= i < hi))
  }

  /** The first block of level `j` that belongs to block `i` of order `order`, or contains it. */
  function First(order: nat, i: nat, j: nat): nat {
    if j <= order then Shl(i, order - j) else Shr(i, j - order)
  }

  /** How many blocks of level `j` are marked. */
  function Count(order: nat, j: nat): nat {
    if order > j then Shl(1, order - j) else 1
  }

  /**
    Marks every related block used, from level `j` up, stopping at the first one already used.
    Lengths and the levels below `j` stay as they are.
   */
  function TakeFrom(lv: Levels, order: nat, i: nat, j: nat): (r: Levels)
    ensures |r| == |lv|
    ensures forall k :: 0 <= k < |lv| ==> |r[k]| == |lv[k]| && (k < j ==> r[k] == lv[k])
    decreases MAX_ORDER + 1 - j
  {
    if j > MAX_ORDER || j >= |lv| then lv
    else
      var s := First(order, i, j);
      if s >= |lv[j]| || !lv[j][s] then lv
      else TakeFrom(lv[j := Cleared(lv[j], s, s + Count(order, j))], order, i, j + 1)
  }

  /** The lowest set bit of a level from `i` on. */
  function Lowest(bits: seq<bool>, i: nat): (r: int)
    decreases |bits| - i
    ensures r == -1 || i <= r < |bits|
    ensures r != -1 ==> bits[r] && forall k :: i <= k < r ==> !bits[k]
    ensures r == -1 ==> forall k :: i <= k < |bits| ==> !bits[k]
  {
    if i >= |bits| then -1 else if bits[i] then i else Lowest(bits, i + 1)
  }

  /** Allocation of one block: the levels afterwards and the first frame, or -1. */
  function Pmalloc(lv: Levels, order: nat): (r: (Levels, int))
    requires order < |lv|
    ensures |r.0| == |lv| && forall k :: 0 <= k < |lv| ==> |r.0[k]| == |lv[k]|
  {
    var i := Lowest(lv[order], 0);
    if i == -1 then (lv, -1) else (TakeFrom(lv, order, i, 0), Shl(i, order) as int)
  }

  /** Level `j` after block `i` of order `order` went: the blocks it is made of, or the one it lies in. */
  ghost predicate Taken(lv: Levels, lv': Levels, order: nat, i: nat, j: nat)
    requires j < |lv| == |lv'|
  {
    lv'[j] == Cleared(lv[j], First(order, i, j), First(order, i, j) + Count(order, j))
  }

  /** Going down a level doubles the range, going up halves it. */
  lemma {:induction false} FirstSteps(order: nat, i: nat, j: nat)
    ensures j < order ==> First(order, i, j) == 2 * First(order, i, j + 1) && Count(order, j) == 2 * Count(order, j + 1)
    ensures j >= order ==>
              First(order, i, j + 1) == First(order, i, j) / 2 && Count(order, j) == 1 == Count(order, j + 1)
  {
    if j < order {
      var d := order - j;
      assert Shl(i, d) == 2 * Shl(i, d - 1) && Shl(1, d) == 2 * Shl(1, d - 1);
      assert Shl(1, 0) == 1;
    } else {
      var d := j - order;
      assert Shr(i, d + 1) == Shr(i, d) / 2;
      assert First(order, i, j) == Shr(i, d) by { assert Shl(i, 0) == i && Shr(i, 0) == i; }
    }
  }

  /** The related blocks lie inside their level. */
  lemma {:induction false} FirstInside(lv: Levels, order: nat, i: nat, j: nat)
    requires Shaped(lv) && order <= MAX_ORDER && i < |lv[order]| && j <= MAX_ORDER
    ensures First(order, i, j) + Count(order, j) <= |lv[j]| && Count(order, j) > 0
    decreases if j <= order then order - j else j - order
  {
    if j < order {
      FirstInside(lv, order, i, j + 1);
      FirstSteps(order, i, j);
    } else if j > order {
      FirstInside(lv, order, i, j - 1);
      FirstSteps(order, i, j - 1);
    }
  }

  /** Below a free block everything is marked free. */
  lemma {:induction false} FreeBelow(lv: Levels, order: nat, i: nat, j: nat)
    requires Coherent(lv) && j <= order <= MAX_ORDER && i < |lv[order]| && lv[order][i]
    ensures First(order, i, j) + Count(order, j) <= |lv[j]|
    ensures forall k :: First(order, i, j) <= k < First(order, i, j) + Count(order, j) ==> lv[j][k]
    decreases order - j
  {
    CoherentShaped(lv);
    FirstInside(lv, order, i, j);
    if j < order {
      FreeBelow(lv, order, i, j + 1);
      FirstSteps(order, i, j);
      assert Pairs(lv[j], lv[j + 1]);
      forall k | First(order, i, j) <= k < First(order, i, j) + Count(order, j) ensures lv[j][k] {
        var h := k / 2;
        assert lv[j + 1][h];
        assert k == 2 * h || k == 2 * h + 1;
      }
    }
  }

  /** Above a used block everything is marked used. */
  lemma {:induction false} UsedAbove(lv: Levels, order: nat, i: nat, j: nat, k: nat)
    requires Coherent(lv) && order <= MAX_ORDER && i < |lv[order]| && order <= j <= k <= MAX_ORDER
    requires First(order, i, j) < |lv[j]| && !lv[j][First(order, i, j)]
    ensures First(order, i, k) < |lv[k]| && !lv[k][First(order, i, k)]
    decreases k
  {
    if j < k {
      UsedAbove(lv, order, i, j, k - 1);
      CoherentShaped(lv);
      FirstInside(lv, order, i, k);
      FirstSteps(order, i, k - 1);
      assert Pairs(lv[k - 1], lv[k]);
    }
  }

  /** Levels below `j` have lost the block, the others are as they were. */
  ghost predicate TakenBelow(lv0: Levels, lv: Levels, order: nat, i: nat, j: nat) {
    && |lv| == |lv0|
    && (forall k :: 0 <= k < |lv| && k < j ==> Taken(lv0, lv, order, i, k))
    && (forall k :: j <= k < |lv| ==> lv[k] == lv0[k])
  }

  lemma {:induction false} TakenOneMore(lv0: Levels, lv: Levels, order: nat, i: nat, j: nat)
    requires TakenBelow(lv0, lv, order, i, j) && j < |lv|
    ensures var s := First(order, i, j);
            TakenBelow(lv0, lv[j := Cleared(lv[j], s, s + Count(order, j))], order, i, j + 1)
  {
    var s := First(order, i, j);
    var lv1 := lv[j := Cleared(lv[j], s, s + Count(order, j))];
    forall k | 0 <= k < |lv1| && k < j + 1 ensures Taken(lv0, lv1, order, i, k) {
      if k < j { assert Taken(lv0, lv, order, i, k); }
    }
  }

  /** When the loop leaves early, the levels it skips have nothing to lose. */
  lemma {:induction false} NothingAbove(lv0: Levels, lv: Levels, order: nat, i: nat, j: nat)
    requires Coherent(lv0) && order <= MAX_ORDER && i < |lv0[order]| && order <= j <= MAX_ORDER
    requires TakenBelow(lv0, lv, order, i, j)
    requires First(order, i, j) < |lv0[j]| && !lv0[j][First(order, i, j)]
    ensures TakenBelow(lv0, lv, order, i, MAX_ORDER + 1)
  {
    forall k | 0 <= k < |lv| && k < MAX_ORDER + 1 ensures Taken(lv0, lv, order, i, k) {
      if k >= j {
        UsedAbove(lv0, order, i, j, k);
        FirstSteps(order, i, k);
        NothingToClear(lv0[k], First(order, i, k));
      }
    }
  }

  /** From a coherent state the loop, early exit included, takes the block out of every level. */
  lemma {:induction false} TakesEverywhere(lv0: Levels, lv: Levels, order: nat, i: nat, j: nat)
    requires Coherent(lv0) && order <= MAX_ORDER && i < |lv0[order]| && lv0[order][i] && j <= MAX_ORDER + 1
    requires TakenBelow(lv0, lv, order, i, j)
    ensures TakenBelow(lv0, TakeFrom(lv, order, i, j), order, i, MAX_ORDER + 1)
    decreases MAX_ORDER + 1 - j
  {
    hide First, Count, Cleared, Pairs, Taken;
    CoherentShaped(lv0);
    if j <= MAX_ORDER {
      var s := First(order, i, j);
      FirstInside(lv0, order, i, j);
      assert lv[j] == lv0[j];
      if j <= order { FreeBelow(lv0, order, i, j); }
      if lv[j][s] {
        TakenOneMore(lv0, lv, order, i, j);
        TakesEverywhere(lv0, lv[j := Cleared(lv[j], s, s + Count(order, j))], order, i, j + 1);
      } else {
        NothingAbove(lv0, lv, order, i, j);
      }
    }
  }

  lemma NothingToClear(bits: seq<bool>, f: nat)
    requires f < |bits| && !bits[f]
    ensures Cleared(bits, f, f + 1) == bits
  {
  }

  /** Taking a free block out of every level keeps the buddy rule. */
  lemma {:induction false} TakingKeepsCoherent(lv: Levels, lv': Levels, order: nat, i: nat)
    requires Coherent(lv) && order <= MAX_ORDER && i < |lv[order]| && |lv'| == |lv|
    requires forall k :: 0 <= k <= MAX_ORDER ==> Taken(lv, lv', order, i, k)
    ensures Coherent(lv')
  {
    forall j | 1 <= j <= MAX_ORDER ensures Pairs(lv'[j - 1], lv'[j]) {
      assert Taken(lv, lv', order, i, j - 1) && Taken(lv, lv', order, i, j);
      FirstSteps(order, i, j - 1);
      assert Pairs(lv[j - 1], lv[j]);
    }
  }

  /**
    One allocation from a coherent state. A refusal means that no aligned block of that order is
    free; a success hands out the lowest such block, all of whose frames were free, takes exactly
    those frames, and leaves the levels coherent.
   */
  lemma {:induction false} PmallocExact(lv: Levels, order: nat)
    requires Coherent(lv) && order <= MAX_ORDER
    ensures var (lv', r) := Pmalloc(lv, order);
            && Coherent(lv') && |lv'[0]| == |lv[0]|
            && (r == -1 ==> lv' == lv && forall b :: 0 <= b < |lv[order]| ==> !BlockFree(lv[0], b, order))
            && (r != -1 ==> exists i :: 0 <= i < |lv[order]| && Hands(lv, lv', r, order, i))
  {
    var i := Lowest(lv[order], 0);
    forall b | 0 <= b < |lv[order]| ensures lv[order][b] <==> BlockFree(lv[0], b, order) {
      BitMeansFree(lv, order, b);
    }
    if i != -1 {
      HandsOut(lv, order, i);
      assert Hands(lv, TakeFrom(lv, order, i, 0), Shl(i, order), order, i);
    }
  }

  lemma {:induction false} HandsOut(lv: Levels, order: nat, i: nat)
    requires Coherent(lv) && order <= MAX_ORDER && i < |lv[order]| && lv[order][i]
    requires forall b :: 0 <= b < i ==> !lv[order][b]
    ensures var lv' := TakeFrom(lv, order, i, 0);
            Coherent(lv') && |lv'[0]| == |lv[0]| && Hands(lv, lv', Shl(i, order), order, i)
  {
    hide TakeFrom, Cleared, BlockFree, Pairs;
    CoherentShaped(lv);
    var lv' := TakeFrom(lv, order, i, 0);
    TakesEverywhere(lv, lv, order, i, 0);
    TakingKeepsCoherent(lv, lv', order, i);
    assert Taken(lv, lv', order, i, 0);
    FirstInside(lv, order, i, 0);
    assert First(order, i, 0) == Shl(i, order) && Count(order, 0) == Shl(1, order);
    forall b | 0 <= b <= i ensures lv[order][b] <==> BlockFree(lv[0], b, order) {
      BitMeansFree(lv, order, b);
    }
  }

  /** Block `i` of the order, starting at frame `r`, is the lowest free one and is exactly what goes. */
  ghost predicate Hands(lv: Levels, lv': Levels, r: int, order: nat, i: nat)
    requires |lv| > 0 && |lv'| > 0
  {
    && r == Shl(i, order)
    && BlockFree(lv[0], i, order)
    && (forall b :: 0 <= b < i ==> !BlockFree(lv[0], b, order))
    && lv'[0] == Cleared(lv[0], r, r + Shl(1, order))
    && r + Shl(1, order) <= |lv[0]|
  }

  // ---------------------------------------------------------------- runs of allocations

  datatype Block = Block(first: int, order: nat)

  ghost predicate InBlock(b: Block, f: int) {
    b.first <= f < b.first + Shl(1, b.order)
  }

  ghost predicate Aligned(b: Block) {
    exists i: nat :: b.first == Shl(i, b.order)
  }

  /** The blocks handed out are aligned, do not share a frame, and are exactly what is missing. */
  ghost predicate Accounted(init: seq<bool>, free: seq<bool>, held: seq<Block>) {
    && |free| == |init|
    && (forall k :: 0 <= k < |held| ==> Aligned(held[k]))
    && (forall a, b, f :: 0 <= a < b < |held| && InBlock(held[a], f) ==> !InBlock(held[b], f))
    && (forall f :: 0 <= f < |init| ==> (free[f] <==> init[f] && !Among(held, f)))
    && (forall f :: Among(held, f) ==> 0 <= f < |init| && init[f])
  }

  ghost predicate Accounts(init: seq<bool>, lv: Levels, held: seq<Block>) {
    Coherent(lv) && Accounted(init, lv[0], held)
  }

  ghost predicate Among(held: seq<Block>, f: int) {
    exists k :: 0 <= k < |held| && InBlock(held[k], f)
  }

  /** A run of requests of any orders. */
  function RunAllocations(lv: Levels, orders: seq<nat>, held: seq<Block>): (Levels, seq<Block>)
    requires |lv| == MAX_ORDER + 1 && forall k :: 0 <= k < |orders| ==> orders[k] <= MAX_ORDER
    decreases |orders|
  {
    if orders == [] then (lv, held)
    else
      var (lv', r) := Pmalloc(lv, orders[0]);
      RunAllocations(lv', orders[1..], if r == -1 then held else held + [Block(r, orders[0])])
  }

  lemma {:induction false} AllocationAccounts(init: seq<bool>, lv: Levels, held: seq<Block>, order: nat)
    requires Accounts(init, lv, held) && order <= MAX_ORDER
    ensures var (lv', r) := Pmalloc(lv, order);
            Accounts(init, lv', if r == -1 then held else held + [Block(r, order)])
  {
    hide Pmalloc, Shl, Pairs, BlockFree, Accounted, Cleared;
    PmallocExact(lv, order);
    var (lv', r) := Pmalloc(lv, order);
    if r != -1 {
      var i :| 0 <= i < |lv[order]| && Hands(lv, lv', r, order, i);
      HandedFree(lv, lv', r, order, i);
      assert Aligned(Block(r, order));
      OneMoreBlock(init, lv[0], lv'[0], held, Block(r, order));
    }
  }

  lemma {:induction false} OneMoreBlock(init: seq<bool>, free: seq<bool>, free': seq<bool>, held: seq<Block>, b: Block)
    requires Accounted(init, free, held) && Aligned(b)
    requires forall f :: InBlock(b, f) ==> 0 <= f < |free| && free[f]
    requires |free'| == |free| && forall f :: 0 <= f < |free| ==> free'[f] == (free[f] && !InBlock(b, f))
    ensures Accounted(init, free', held + [b])
  {
    hide InBlock, Aligned;
    var held' := held + [b];
    assert forall k :: 0 <= k < |held'| ==> held'[k] == if k < |held| then held[k] else b;
    forall f ensures Among(held', f) <==> Among(held, f) || InBlock(b, f) {
      if Among(held, f) {
        var k :| 0 <= k < |held| && InBlock(held[k], f);
        assert InBlock(held'[k], f);
      }
      if InBlock(b, f) { assert InBlock(held'[|held|], f); }
      if Among(held', f) {
        var k :| 0 <= k < |held'| && InBlock(held'[k], f);
        if k < |held| { assert InBlock(held[k], f); }
      }
    }
    forall a, c, f | 0 <= a < c < |held'| && InBlock(held'[a], f) ensures !InBlock(held'[c], f) {
      if c == |held| { assert Among(held, f); }
    }
  }

  lemma {:induction false} HandedFree(lv: Levels, lv': Levels, r: int, order: nat, i: nat)
    requires |lv| > 0 && |lv'| > 0 && Hands(lv, lv', r, order, i)
    ensures forall f :: InBlock(Block(r, order), f) ==> 0 <= f < |lv[0]| && lv[0][f]
    ensures |lv'[0]| == |lv[0]|
    ensures forall f :: 0 <= f < |lv[0]| ==> lv'[0][f] == (lv[0][f] && !InBlock(Block(r, order), f))
  {
    BlockSpan(i, order);
  }

  lemma {:induction false} BlockSpan(i: nat, order: nat)
    ensures Shl(i + 1, order) == Shl(i, order) + Shl(1, order)
    decreases order
  {
    if order > 0 { BlockSpan(i, order - 1); }
  }

  /**
    Over every run of requests of mixed sizes from a coherent state, the levels stay coherent,
    the blocks handed out are aligned and pairwise disjoint, and the free frames are exactly the
    initial ones not handed out.
   */
  lemma {:induction false} AllocationRuns(init: seq<bool>, lv: Levels, orders: seq<nat>, held: seq<Block>)
    requires Accounts(init, lv, held) && forall k :: 0 <= k < |orders| ==> orders[k] <= MAX_ORDER
    ensures var (lv', held') := RunAllocations(lv, orders, held);
            Accounts(init, lv', held') && held <= held'
    decreases |orders|
  {
    if orders != [] {
      AllocationAccounts(init, lv, held, orders[0]);
      var (lv', r) := Pmalloc(lv, orders[0]);
      AllocationRuns(init, lv', orders[1..], if r == -1 then held else held + [Block(r, orders[0])]);
    }
  }

  /** All frames free, as initialisation leaves them. */
  function AllFree(n: nat): Levels {
    seq(MAX_ORDER + 1, j requires 0 <= j => seq(Shr(n, j), _ => true))
  }

  lemma {:induction false} AllFreeCoherent(n: nat)
    requires n % 128 == 0
    ensures Coherent(AllFree(n)) && |AllFree(n)[0]| == n
    ensures forall f :: 0 <= f < n ==> AllFree(n)[0][f]
    ensures Accounts(AllFree(n)[0], AllFree(n), [])
  {
    forall j | 1 <= j <= MAX_ORDER ensures Pairs(AllFree(n)[j - 1], AllFree(n)[j]) {
      EvenLength(n, j);
    }
  }

  lemma EvenLength(n: nat, j: nat)
    requires n % 128 == 0 && 1 <= j <= MAX_ORDER
    ensures Shr(n, j - 1) == 2 * Shr(n, j)
  {
    var m := n / 128;
    assert Shr(n, 0) == 128 * m;
    assert Shr(n, 1) == 64 * m;
    assert Shr(n, 2) == 32 * m;
    assert Shr(n, 3) == 16 * m;
    assert Shr(n, 4) == 8 * m;
    assert Shr(n, 5) == 4 * m;
    assert Shr(n, 6) == 2 * m;
    assert Shr(n, 7) == m;
  }

  // ---------------------------------------------------------------- freeing one frame

  /** The index of the other half of a pair. */
  function Other(x: nat): nat {
    if x % 2 == 0 then x + 1 else x - 1
  }

  /**
    Freeing one frame, from level `j` up: the bit of its block is set, and the loop goes on as
    long as the *frame* numbered like the block's buddy is free. It should look at the buddy
    block; the code looks at level 0 whatever the level.
   */
  function FreeFrom(lv: Levels, pfn: nat, j: nat): (r: Levels)
    ensures |r| == |lv|
    ensures forall k :: 0 <= k < |lv| ==> |r[k]| == |lv[k]| && (k < j ==> r[k] == lv[k])
    decreases MAX_ORDER + 1 - j
  {
    if j > MAX_ORDER || j >= |lv| || Shr(pfn, j) >= |lv[j]| then lv
    else
      var lv1 := lv[j := lv[j][Shr(pfn, j) := true]];
      if Other(Shr(pfn, j)) < |lv1[0]| && lv1[0][Other(Shr(pfn, j))] then FreeFrom(lv1, pfn, j + 1) else lv1
  }

  function Pfree(lv: Levels, pfn: nat): Levels {
    FreeFrom(lv, pfn, 0)
  }

  /** Whatever the merge loop does, level 0 gets exactly the freed frame. */
  lemma {:induction false} FreeSetsOneFrame(lv: Levels, pfn: nat)
    requires |lv| == MAX_ORDER + 1 && pfn < |lv[0]|
    ensures Pfree(lv, pfn)[0] == lv[0][pfn := true]
  {
    assert Shr(pfn, 0) == pfn;
    var lv1 := lv[0 := lv[0][pfn := true]];
    assert FreeFrom(lv1, pfn, 1)[0] == lv1[0];
  }

  /** One round of the loop over the levels. */
  lemma {:induction false} TakeStep(lv: Levels, order: nat, i: nat, j: nat)
    requires j <= MAX_ORDER && |lv| == MAX_ORDER + 1 && First(order, i, j) < |lv[j]|
    ensures var s := First(order, i, j);
            TakeFrom(lv, order, i, j) ==
            if !lv[j][s] then lv else TakeFrom(lv[j := Cleared(lv[j], s, s + Count(order, j))], order, i, j + 1)
  {
  }

  /** Taking one frame clears exactly that bit of level 0, coherent or not. */
  lemma {:induction false} TakeClearsOneFrame(lv: Levels, i: nat)
    requires |lv| == MAX_ORDER + 1 && i < |lv[0]| && lv[0][i]
    ensures TakeFrom(lv, 0, i, 0)[0] == lv[0][i := false]
  {
    hide Cleared, First, Count, TakeFrom;
    LowestLevel(i);
    TakeStep(lv, 0, i, 0);
    ClearedOne(lv[0], i);
  }

  lemma LowestLevel(i: nat)
    ensures First(0, i, 0) == i && Count(0, 0) == 1
  {
  }

  lemma ClearedOne(s: seq<bool>, i: nat)
    requires i < |s|
    ensures Cleared(s, i, i + 1) == s[i := false]
  {
  }

  // ---------------------------------------------------------------- runs of single frames

  datatype FrameOp = Take | Give(pfn: nat)

  /** Level 0 is exactly the set of frames not held. */
  ghost predicate Tracks(lv: Levels, held: set<int>) {
    && |lv| == MAX_ORDER + 1
    && (forall f :: 0 <= f < |lv[0]| ==> (lv[0][f] <==> f !in held))
    && (forall f :: f in held ==> 0 <= f < |lv[0]|)
  }

  datatype Frames = Frames(lv: Levels, held: set<int>)

  function FrameStep(s: Frames, op: FrameOp): Frames
    requires |s.lv| == MAX_ORDER + 1
  {
    match op
    case Take =>
      var (lv', r) := Pmalloc(s.lv, 0);
      if r == -1 then s else Frames(lv', s.held + {r})
    case Give(pfn) => Frames(Pfree(s.lv, pfn), s.held - {pfn})
  }

  /** One step: a frame handed out was not held and is the lowest such; a refusal means all are held. */
  lemma {:induction false} FrameStepTracks(s: Frames, op: FrameOp)
    requires Tracks(s.lv, s.held) && (op.Give? ==> op.pfn in s.held)
    ensures var t := FrameStep(s, op);
            && Tracks(t.lv, t.held) && |t.lv[0]| == |s.lv[0]|
            && (op.Give? ==> t.held == s.held - {op.pfn} && t.lv[0][op.pfn])
            && (op.Take? ==>
                  var r := Pmalloc(s.lv, 0).1;
                  if r == -1 then t == s && forall f :: 0 <= f < |s.lv[0]| ==> f in s.held
                  else r !in s.held && t.held == s.held + {r} && forall f :: 0 <= f < r ==> f in s.held)
  {
    match op
    case Take =>
      var i := Lowest(s.lv[0], 0);
      if i != -1 {
        assert Shl(i, 0) == i;
        TakeClearsOneFrame(s.lv, i);
      }
    case Give(pfn) =>
      FreeSetsOneFrame(s.lv, pfn);
  }

  ghost predicate FrameRunAllowed(s: Frames, ops: seq<FrameOp>)
    decreases |ops|
  {
    && |s.lv| == MAX_ORDER + 1
    && (ops != [] ==>
          && (ops[0].Give? ==> ops[0].pfn in s.held)
          && FrameRunAllowed(FrameStep(s, ops[0]), ops[1..]))
  }

  function FrameRun(s: Frames, ops: seq<FrameOp>): Frames
    requires |s.lv| == MAX_ORDER + 1
    decreases |ops|
  {
    if ops == [] then s else FrameRun(FrameStep(s, ops[0]), ops[1..])
  }

  /**
    Over every run of taking and giving back single frames, level 0 is exactly the set of frames
    not held, whatever the merging does to the levels above.
   */
  lemma {:induction false} FrameRuns(s: Frames, ops: seq<FrameOp>)
    requires Tracks(s.lv, s.held) && FrameRunAllowed(s, ops)
    ensures Tracks(FrameRun(s, ops).lv, FrameRun(s, ops).held)
    decreases |ops|
  {
    if ops != [] {
      FrameStepTracks(s, ops[0]);
      FrameRuns(FrameStep(s, ops[0]), ops[1..]);
    }
  }

  // ---------------------------------------------------------------- exactly when merging is right

  /** The loop reaches level `j`: the frames it looked at on the levels below were all free. */
  predicate Reaches(free: seq<bool>, pfn: nat, j: nat) {
    j == 0 || (Reaches(free, pfn, j - 1) && Other(Shr(pfn, j - 1)) < |free| && free[Other(Shr(pfn, j - 1))])
  }

  /** `r` is `lv` with the frame's block marked free on exactly the levels the loop reaches. */
  ghost predicate FreedOn(lv: Levels, r: Levels, pfn: nat)
    requires |lv| == |r| == MAX_ORDER + 1 && pfn < |lv[0]|
  {
    forall k :: 0 <= k <= MAX_ORDER ==>
      && Shr(pfn, k) < |lv[k]|
      && r[k] == if Reaches(lv[0][pfn := true], pfn, k) then lv[k][Shr(pfn, k) := true] else lv[k]
  }

  /** Every level after a free. */
  lemma {:induction false} FreeShape(lv: Levels, lv0: Levels, pfn: nat, j: nat)
    requires Shaped(lv0) && pfn < |lv0[0]| && |lv| == |lv0| && j <= MAX_ORDER + 1
    requires var free := lv0[0][pfn := true];
             && Reaches(free, pfn, j)
             && (j > 0 ==> lv[0] == free)
             && (forall k :: 0 <= k < j && k <= MAX_ORDER ==>
                   Shr(pfn, k) < |lv0[k]| && lv[k] == lv0[k][Shr(pfn, k) := true])
             && (forall k :: j <= k <= MAX_ORDER ==> lv[k] == lv0[k])
    ensures FreedOn(lv0, FreeFrom(lv, pfn, j), pfn)
    decreases MAX_ORDER + 1 - j
  {
    hide Shr, FreedOn, FreeFrom;
    if j > MAX_ORDER {
      Stopped(lv, lv0, pfn, j);
    } else {
      ShrInside(lv0, pfn, j);
      ShrZero(pfn);
      var lv1 := lv[j := lv[j][Shr(pfn, j) := true]];
      assert lv1[0] == lv0[0][pfn := true];
      FreeOnce(lv, pfn, j);
      if Other(Shr(pfn, j)) < |lv1[0]| && lv1[0][Other(Shr(pfn, j))] {
        FreeShape(lv1, lv0, pfn, j + 1);
      } else {
        Stopped(lv1, lv0, pfn, j + 1);
      }
    }
  }

  /** One round of the loop. */
  lemma FreeOnce(lv: Levels, pfn: nat, j: nat)
    requires j <= MAX_ORDER < |lv| && Shr(pfn, j) < |lv[j]|
    ensures var lv1 := lv[j := lv[j][Shr(pfn, j) := true]];
            FreeFrom(lv, pfn, j) ==
            if Other(Shr(pfn, j)) < |lv1[0]| && lv1[0][Other(Shr(pfn, j))] then FreeFrom(lv1, pfn, j + 1) else lv1
  {
  }

  /** The levels when the loop stops below level `j`. */
  lemma {:induction false} Stopped(lv: Levels, lv0: Levels, pfn: nat, j: nat)
    requires Shaped(lv0) && pfn < |lv0[0]| && |lv| == |lv0| && 0 < j <= MAX_ORDER + 1
    requires var free := lv0[0][pfn := true];
             Reaches(free, pfn, j - 1) && (j <= MAX_ORDER ==> !Reaches(free, pfn, j))
    requires forall k :: 0 <= k < j ==> Shr(pfn, k) < |lv0[k]| && lv[k] == lv0[k][Shr(pfn, k) := true]
    requires forall k :: j <= k <= MAX_ORDER ==> lv[k] == lv0[k]
    ensures FreedOn(lv0, lv, pfn) && FreeFrom(lv, pfn, MAX_ORDER + 1) == lv
  {
    hide Shr, Reaches;
    var free := lv0[0][pfn := true];
    forall k | 0 <= k <= MAX_ORDER ensures Shr(pfn, k) < |lv0[k]| && (Reaches(free, pfn, k) <==> k < j) {
      ShrInside(lv0, pfn, k);
      if k < j { ReachesDown(free, pfn, j - 1, k); }
      if j <= k && Reaches(free, pfn, k) { ReachesDown(free, pfn, k, j); }
    }
  }

  lemma ShrZero(pfn: nat)
    ensures Shr(pfn, 0) == pfn
  {
  }

  lemma {:induction false} ReachesDown(free: seq<bool>, pfn: nat, j: nat, k: nat)
    requires k <= j && Reaches(free, pfn, j)
    ensures Reaches(free, pfn, k)
    decreases j
  {
    if k < j { ReachesDown(free, pfn, j - 1, k); }
  }

  lemma {:induction false} ShrInside(lv: Levels, pfn: nat, j: nat)
    requires Shaped(lv) && pfn < |lv[0]| && j <= MAX_ORDER
    ensures Shr(pfn, j) < |lv[j]|
    decreases j
  {
    if j > 0 { ShrInside(lv, pfn, j - 1); }
  }

  /** A frame lies in the block its shifted number names, at every level. */
  lemma {:induction false} ShrSpans(pfn: nat, j: nat)
    ensures Shl(Shr(pfn, j), j) <= pfn < Shl(Shr(pfn, j) + 1, j)
    decreases j
  {
    if j > 0 {
      ShrSpans(pfn, j - 1);
      var a := Shr(pfn, j - 1);
      ShlDouble(a / 2, j - 1);
      ShlMonotone(2 * (a / 2), a, j - 1);
      ShlMonotone(a + 1, 2 * (a / 2) + 2, j - 1);
    }
  }

  /** While a frame is used, so is every block it lies in. */
  lemma {:induction false} UsedEverywhere(lv: Levels, pfn: nat, j: nat)
    requires Coherent(lv) && pfn < |lv[0]| && !lv[0][pfn] && j <= MAX_ORDER
    ensures Shr(pfn, j) < |lv[j]| && !lv[j][Shr(pfn, j)]
  {
    CoherentShaped(lv);
    ShrInside(lv, pfn, j);
    BitMeansFree(lv, j, Shr(pfn, j));
    ShrSpans(pfn, j);
  }

  /** On each level the loop marks the frame's block free exactly when all frames of that block are free. */
  ghost predicate MergesRightly(free: seq<bool>, pfn: nat) {
    forall j :: 1 <= j <= MAX_ORDER ==> (Reaches(free, pfn, j) <==> BlockFree(free, Shr(pfn, j), j))
  }

  /** The buddy of a block does not contain the frame, so freeing the frame leaves it as it was. */
  lemma {:induction false} BuddyUnchanged(lv: Levels, pfn: nat, j: nat)
    requires Coherent(lv) && pfn < |lv[0]| && j < MAX_ORDER
    ensures var o := Other(Shr(pfn, j));
            o < |lv[j]| && (lv[j][o] <==> BlockFree(lv[0][pfn := true], o, j))
  {
    var a := Shr(pfn, j);
    var o := Other(a);
    CoherentShaped(lv);
    ShrInside(lv, pfn, j);
    assert |lv[(j + 1) - 1]| == 2 * |lv[j + 1]|;
    BitMeansFree(lv, j, o);
    ShrSpans(pfn, j);
    if o > a { ShlMonotone(a + 1, o, j); } else { ShlMonotone(o + 1, a, j); }
    var free := lv[0][pfn := true];
    assert forall f :: 0 <= f < |free| && f != pfn ==> free[f] == lv[0][f];
  }

  /**
    The exact condition under which freeing a frame keeps the buddy rule. It speaks only of which
    frames are free, so it can be evaluated before the call.
   */
  lemma {:induction false} MergeExact(lv: Levels, pfn: nat)
    requires Coherent(lv) && pfn < |lv[0]| && !lv[0][pfn]
    ensures Coherent(Pfree(lv, pfn)) <==> MergesRightly(lv[0][pfn := true], pfn)
  {
    var free, lv' := lv[0][pfn := true], Pfree(lv, pfn);
    CoherentShaped(lv);
    FreeShape(lv, lv, pfn, 0);
    FreeSetsOneFrame(lv, pfn);
    forall j | 0 <= j <= MAX_ORDER ensures Shr(pfn, j) < |lv[j]| && lv'[j][Shr(pfn, j)] == Reaches(free, pfn, j) {
      UsedEverywhere(lv, pfn, j);
    }
    if Coherent(lv') {
      forall j | 1 <= j <= MAX_ORDER ensures Reaches(free, pfn, j) <==> BlockFree(free, Shr(pfn, j), j) {
        BitMeansFree(lv', j, Shr(pfn, j));
      }
    }
    if MergesRightly(free, pfn) {
      forall j | 1 <= j <= MAX_ORDER ensures Pairs(lv'[j - 1], lv'[j]) {
        MergedPairs(lv, lv', pfn, j);
      }
    }
  }

  lemma {:induction false} MergedPairs(lv: Levels, lv': Levels, pfn: nat, j: nat)
    requires Coherent(lv) && pfn < |lv[0]| && !lv[0][pfn] && 1 <= j <= MAX_ORDER && |lv'| == |lv|
    requires MergesRightly(lv[0][pfn := true], pfn)
    requires FreedOn(lv, lv', pfn)
    ensures Pairs(lv'[j - 1], lv'[j])
  {
    hide Reaches, Pairs, Shr, MergesRightly, Other;
    var free, a := lv[0][pfn := true], Shr(pfn, j - 1);
    UsedEverywhere(lv, pfn, j - 1);
    ShrHalves(pfn, j);
    ReachesParent(lv, pfn, j);
    assert Pairs(lv[j - 1], lv[j]);
    PairsAfter(lv[j - 1], lv[j], a, Reaches(free, pfn, j - 1), Reaches(free, pfn, j));
  }

  lemma ShrHalves(pfn: nat, j: nat)
    requires j >= 1
    ensures Shr(pfn, j) == Shr(pfn, j - 1) / 2
  {
  }

  lemma {:induction false} ReachesParent(lv: Levels, pfn: nat, j: nat)
    requires Coherent(lv) && pfn < |lv[0]| && 1 <= j <= MAX_ORDER && MergesRightly(lv[0][pfn := true], pfn)
    ensures var free, o := lv[0][pfn := true], Other(Shr(pfn, j - 1));
            o < |lv[j - 1]| && (Reaches(free, pfn, j) <==> Reaches(free, pfn, j - 1) && lv[j - 1][o])
  {
    hide Reaches, BlockFree, Pairs, Shl, Shr;
    var free, a, p := lv[0][pfn := true], Shr(pfn, j - 1), Shr(pfn, j);
    ShrHalves(pfn, j);
    BuddyUnchanged(lv, pfn, j - 1);
    HalvesMakeBlock(free, p, j);
    OneFrameBlock(free, pfn);
    assert Reaches(free, pfn, j - 1) <==> BlockFree(free, a, j - 1);
    assert a == 2 * p || a == 2 * p + 1;
  }

  /** Setting one bit below and its parent above keeps the buddy rule when the parent follows the rule. */
  lemma PairsAfter(low: seq<bool>, high: seq<bool>, a: nat, c: bool, d: bool)
    requires Pairs(low, high) && a < |low| && !low[a] && Other(a) < |low|
    requires d <==> c && low[Other(a)]
    ensures Pairs(if c then low[a := true] else low, if d then high[a / 2 := true] else high)
  {
    var low', high' := if c then low[a := true] else low, if d then high[a / 2 := true] else high;
    assert high[a / 2] <==> low[2 * (a / 2)] && low[2 * (a / 2) + 1];
    forall i | 0 <= i < |high'| ensures high'[i] <==> low'[2 * i] && low'[2 * i + 1] {
      assert high[i] <==> low[2 * i] && low[2 * i + 1];
    }
  }

  lemma {:induction false} OneFrameBlock(free: seq<bool>, pfn: nat)
    requires pfn < |free| && free[pfn]
    ensures BlockFree(free, Shr(pfn, 0), 0) && Reaches(free, pfn, 0)
  {
    assert Shr(pfn, 0) == pfn && Shl(pfn, 0) == pfn && Shl(pfn + 1, 0) == pfn + 1;
  }

  // ---------------------------------------------------------------- merging can be wrong

  /** The run that shows it: take four frames, give back the second and then the first. */
  const WRONG_MERGE := [Take, Take, Take, Take, Give(1), Give(0)]

  /**
    After that run, on any machine, the order-2 block of frames 0 to 3 is marked free although
    frames 2 and 3 are held.
   */
  lemma {:induction false} MergeCanBeWrong(n: nat)
    requires n >= 128 && n % 128 == 0
    ensures var s := FrameRun(Frames(AllFree(n), {}), WRONG_MERGE);
            |s.lv| == MAX_ORDER + 1 && |s.lv[2]| > 0 && s.lv[2][0] && s.held == {2, 3}
  {
    hide Pmalloc, Pfree, AllFree;
    AllFreeCoherent(n);
    var s0 := Frames(AllFree(n), {});
    var s4 := FourTaken(s0);
    FrameStepTracks(s4, Give(1));
    var s5 := FrameStep(s4, Give(1));
    FrameStepTracks(s5, Give(0));
    var s6 := FrameStep(s5, Give(0));
    assert s6.held == {2, 3};
    FreeKeepsLengths(s4.lv, 1);
    FreeZero(s5.lv);
    assert FrameRun(s4, [Give(1), Give(0)]) == s6 by {
      assert [Give(1), Give(0)][1..] == [Give(0)];
      assert [Give(0)][1..] == [];
      assert FrameRun(s5, [Give(0)]) == FrameRun(s6, []);
    }
  }

  lemma {:induction false} FreeKeepsLengths(lv: Levels, pfn: nat)
    ensures |Pfree(lv, pfn)| == |lv| && forall k :: 0 <= k < |lv| ==> |Pfree(lv, pfn)[k]| == |lv[k]|
  {
  }

  /** With exactly the first `k` frames held, the next one taken is frame `k`. */
  lemma {:induction false} TakeNext(s: Frames, k: nat) returns (t: Frames)
    requires Tracks(s.lv, s.held) && k < |s.lv[0]| && forall f :: f in s.held <==> 0 <= f < k
    ensures t == FrameStep(s, Take) && Tracks(t.lv, t.held)
    ensures forall f :: f in t.held <==> 0 <= f < k + 1
    ensures forall j :: 0 <= j < |s.lv| ==> |t.lv[j]| == |s.lv[j]|
  {
    hide Pmalloc;
    FrameStepTracks(s, Take);
    t := FrameStep(s, Take);
    var r := Pmalloc(s.lv, 0).1;
    assert k !in s.held;
    assert r != -1 && r == k;
  }

  lemma {:induction false} FourTaken(s0: Frames) returns (s4: Frames)
    requires s0.held == {} && Tracks(s0.lv, {}) && |s0.lv[0]| >= 128
    ensures Tracks(s4.lv, s4.held) && s4.held == {0, 1, 2, 3}
    ensures |s4.lv[0]| == |s0.lv[0]| && |s4.lv[2]| == |s0.lv[2]| && |s4.lv[1]| == |s0.lv[1]|
    ensures FrameRun(s0, WRONG_MERGE) == FrameRun(s4, [Give(1), Give(0)])
  {
    hide FrameStep;
    var s1 := TakeNext(s0, 0);
    var s2 := TakeNext(s1, 1);
    var s3 := TakeNext(s2, 2);
    s4 := TakeNext(s3, 3);
    assert s4.held == {0, 1, 2, 3};
    assert WRONG_MERGE[1..] == [Take, Take, Take, Give(1), Give(0)];
    assert WRONG_MERGE[1..][1..] == [Take, Take, Give(1), Give(0)];
    assert WRONG_MERGE[1..][1..][1..] == [Take, Give(1), Give(0)];
    assert WRONG_MERGE[1..][1..][1..][1..] == [Give(1), Give(0)];
    assert FrameRun(s0, WRONG_MERGE) == FrameRun(s1, WRONG_MERGE[1..]);
    assert FrameRun(s1, WRONG_MERGE[1..]) == FrameRun(s2, WRONG_MERGE[1..][1..]);
    assert FrameRun(s2, WRONG_MERGE[1..][1..]) == FrameRun(s3, WRONG_MERGE[1..][1..][1..]);
  }

  lemma {:induction false} FreeZero(lv: Levels)
    requires |lv| == MAX_ORDER + 1 && |lv[0]| > 1 && |lv[1]| > 0 && |lv[2]| > 0 && lv[0][1]
    ensures |Pfree(lv, 0)[2]| > 0 && Pfree(lv, 0)[2][0]
  {
    assert Shr(0, 0) == 0 && Shr(0, 1) == 0 && Shr(0, 2) == 0;
    var lv1 := lv[0 := lv[0][0 := true]];
    assert FreeFrom(lv, 0, 0) == FreeFrom(lv1, 0, 1);
    var lv2 := lv1[1 := lv1[1][0 := true]];
    assert FreeFrom(lv1, 0, 1) == FreeFrom(lv2, 0, 2);
    var lv3 := lv2[2 := lv2[2][0 := true]];
    assert FreeFrom(lv2, 0, 2) == if Other(0) < |lv3[0]| && lv3[0][Other(0)] then FreeFrom(lv3, 0, 3) else lv3;
  }
}
