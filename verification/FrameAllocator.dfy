/**
  The frame allocator as the kernel keeps it: eight byte arrays of packed bits, changed in place
  by loops. Every method turns the levels into exactly the value that `Buddy` computes.
 */
module FrameAllocator {
  import opened Machine
  import opened Buddy

  // ---------------------------------------------------------------- packed bits

  /** The byte with only bit `k` set. */
  function Mask(k: int): (r: bv8)
    requires 0 <= k < 8
    ensures r == (1 as bv8) << k
  {
    if k == 0 then 1 else if k == 1 then 2 else if k == 2 then 4 else if k == 3 then 8
    else if k == 4 then 16 else if k == 5 then 32 else if k == 6 then 64 else 128
  }

  function BitOf(b: bv8, k: int): bool
    requires 0 <= k < 8
  {
    b & Mask(k) != 0
  }

  lemma MaskReads(b: bv8, k: int)
    requires 0 <= k < 8
    ensures b & Mask(k) != 0 <==> BitOf(b, k)
  {
  }

  lemma SetBitOf(b: bv8, k: int, m: int)
    requires 0 <= k < 8 && 0 <= m < 8
    ensures BitOf(b | Mask(k), m) == (BitOf(b, m) || m == k)
  {
  }

  lemma ClearBitOf(b: bv8, k: int, m: int)
    requires 0 <= k < 8 && 0 <= m < 8
    ensures BitOf(b & !Mask(k), m) == (BitOf(b, m) && m != k)
  {
  }

  lemma AllOnes(m: int)
    requires 0 <= m < 8
    ensures BitOf(0xFF, m)
  {
  }

  /** The first `n` bits packed in `bytes`. */
  function Unpack(bytes: seq<bv8>, n: nat): (r: seq<bool>)
    requires n <= 8 * |bytes|
    ensures |r| == n
  {
    seq(n, i requires 0 <= i < n => BitOf(bytes[i / 8], i % 8))
  }

  lemma SameBit(i: nat, k: nat)
    ensures i == k <==> i / 8 == k / 8 && i % 8 == k % 8
  {
  }

  lemma {:induction false} SetAt(bytes: seq<bv8>, i: nat, k: nat)
    requires i < 8 * |bytes| && k < 8 * |bytes|
    ensures BitOf(bytes[i / 8 := bytes[i / 8] | Mask(i % 8)][k / 8], k % 8) == (BitOf(bytes[k / 8], k % 8) || k == i)
  {
    hide BitOf, Mask;
    SetBitOf(bytes[i / 8], i % 8, k % 8);
    SameBit(i, k);
  }

  lemma {:induction false} UnpackSet(bytes: seq<bv8>, n: nat, i: nat)
    requires i < n <= 8 * |bytes|
    ensures Unpack(bytes[i / 8 := bytes[i / 8] | Mask(i % 8)], n) == Unpack(bytes, n)[i := true]
  {
    hide BitOf, Mask;
    var b := bytes[i / 8 := bytes[i / 8] | Mask(i % 8)];
    forall k | 0 <= k < n ensures Unpack(b, n)[k] == Unpack(bytes, n)[i := true][k] {
      SetAt(bytes, i, k);
    }
  }

  lemma {:induction false} ClearAt(bytes: seq<bv8>, i: nat, k: nat)
    requires i < 8 * |bytes| && k < 8 * |bytes|
    ensures BitOf(bytes[i / 8 := bytes[i / 8] & !Mask(i % 8)][k / 8], k % 8) == (BitOf(bytes[k / 8], k % 8) && k != i)
  {
    hide BitOf, Mask;
    ClearBitOf(bytes[i / 8], i % 8, k % 8);
    SameBit(i, k);
  }

  lemma {:induction false} UnpackClear(bytes: seq<bv8>, n: nat, i: nat)
    requires i < n <= 8 * |bytes|
    ensures Unpack(bytes[i / 8 := bytes[i / 8] & !Mask(i % 8)], n) == Unpack(bytes, n)[i := false]
  {
    hide BitOf, Mask;
    var b := bytes[i / 8 := bytes[i / 8] & !Mask(i % 8)];
    forall k | 0 <= k < n ensures Unpack(b, n)[k] == Unpack(bytes, n)[i := false][k] {
      ClearAt(bytes, i, k);
    }
  }

  // ---------------------------------------------------------------- orders

  /** Frames needed for `size` bytes, in 32-bit arithmetic. */
  function Units(size: int): int {
    (size + PAGE - 1) % WORD / PAGE
  }

  /** The smallest order whose blocks hold that many frames. */
  method GetOrder(size: int) returns (order: nat)
    ensures Shl(1, order) >= Units(size)
    ensures order > 0 ==> Shl(1, order - 1) < Units(size)
  {
    order := 0;
    var units := Units(size);
    while Shl(1, order) < units
      invariant order > 0 ==> Shl(1, order - 1) < units
      decreases units - Shl(1, order)
    {
      GrowsAbove(order);
      order := order + 1;
    }
  }

  lemma {:induction false} GrowsAbove(k: nat)
    ensures Shl(1, k) >= 1
    decreases k
  {
    if k > 0 { GrowsAbove(k - 1); }
  }

  /** An order that is both large enough and as small as possible is the only one. */
  ghost predicate IsOrder(size: int, order: nat) {
    Shl(1, order) >= Units(size) && (order > 0 ==> Shl(1, order - 1) < Units(size))
  }

  lemma {:induction false} OrderUnique(size: int, a: nat, b: nat)
    requires IsOrder(size, a) && IsOrder(size, b)
    ensures a == b
  {
    if a < b { OrderGrows(a, b - 1); } else if b < a { OrderGrows(b, a - 1); }
  }

  lemma {:induction false} OrderGrows(a: nat, b: nat)
    requires a <= b
    ensures Shl(1, a) <= Shl(1, b)
    decreases b
  {
    if a < b { OrderGrows(a, b - 1); GrowsAbove(b - 1); }
  }

  /** A request of at most 128 frames has an order the allocator knows. */
  lemma {:induction false} SmallRequest(size: int, order: nat)
    requires 0 <= size <= 128 * PAGE && IsOrder(size, order)
    ensures order <= MAX_ORDER
    ensures 1 <= size <= PAGE ==> order == 0
  {
    assert Shl(1, 0) == 1 && Shl(1, 1) == 2 && Shl(1, 2) == 4 && Shl(1, 3) == 8;
    assert Shl(1, 4) == 16 && Shl(1, 5) == 32 && Shl(1, 6) == 64 && Shl(1, 7) == 128;
    if order > MAX_ORDER { OrderGrows(7, order - 1); }
  }

  // ---------------------------------------------------------------- the allocator

  class FrameAllocator {
    var bitmaps: seq<array<bv8>>
    var numBits: seq<nat>

    /** The arrays exist, differ, and have room for their bits. */
    ghost predicate Ready()
      reads this
    {
      && |bitmaps| == MAX_ORDER + 1 && |numBits| == MAX_ORDER + 1
      && (forall j :: 0 <= j <= MAX_ORDER ==> bitmaps[j].Length == (numBits[j] + 7) / 8)
      && (forall j, k :: 0 <= j < k <= MAX_ORDER ==> bitmaps[j] != bitmaps[k])
    }

    ghost function Bits(j: nat): (r: seq<bool>)
      requires Ready() && j <= MAX_ORDER
      reads this, bitmaps
      ensures |r| == numBits[j]
    {
      Unpack(bitmaps[j][..], numBits[j])
    }

    /** All levels as a value. */
    ghost function View(): (r: Levels)
      requires Ready()
      reads this, bitmaps
      ensures |r| == MAX_ORDER + 1
      ensures forall j :: 0 <= j <= MAX_ORDER ==> r[j] == Bits(j)
    {
      [Bits(0), Bits(1), Bits(2), Bits(3), Bits(4), Bits(5), Bits(6), Bits(7)]
    }

    ghost predicate Valid()
      reads this, bitmaps
    {
      Ready() && Shaped(View())
    }

    method IsBitSet(j: nat, index: nat) returns (b: bool)
      requires Ready() && j <= MAX_ORDER && index < numBits[j]
      ensures b == View()[j][index]
    {
      hide View, Mask;
      b := bitmaps[j][index / 8] & Mask(index % 8) != 0;
      MaskReads(bitmaps[j][index / 8], index % 8);
      assert Bits(j)[index] == BitOf(bitmaps[j][index / 8], index % 8);
    }

    method SetBit(j: nat, index: nat)
      requires Ready() && j <= MAX_ORDER && index < numBits[j]
      modifies bitmaps[j]
      ensures Ready() && View() == old(View())[j := old(View())[j][index := true]]
    {
      hide Unpack, BitOf, Mask;
      UnpackSet(bitmaps[j][..], numBits[j], index);
      bitmaps[j][index / 8] := bitmaps[j][index / 8] | Mask(index % 8);
      assert Bits(j) == old(Bits(j))[index := true];
      assert forall k :: 0 <= k <= MAX_ORDER && k != j ==> Bits(k) == old(Bits(k));
    }

    method ClearBit(j: nat, index: nat)
      requires Ready() && j <= MAX_ORDER && index < numBits[j]
      modifies bitmaps[j]
      ensures Ready() && View() == old(View())[j := old(View())[j][index := false]]
    {
      hide Unpack, BitOf, Mask;
      UnpackClear(bitmaps[j][..], numBits[j], index);
      bitmaps[j][index / 8] := bitmaps[j][index / 8] & !Mask(index % 8);
      assert forall k :: 0 <= k <= MAX_ORDER && k != j ==> Bits(k) == old(Bits(k));
    }

    /** The loop that clears the bits of one level. */
    method ClearRange(j: nat, first: nat, count: nat)
      requires Ready() && j <= MAX_ORDER && first + count <= numBits[j]
      modifies bitmaps[j]
      ensures Ready() && View() == old(View())[j := Cleared(old(View())[j], first, first + count)]
    {
      hide View, Bits, Unpack, BitOf, Mask, Cleared;
      ghost var lv := View();
      var k := 0;
      ClearNothing(lv, j, first);
      while k < count
        invariant k <= count && Ready()
        invariant View() == lv[j := Cleared(lv[j], first, first + k)]
      {
        ClearBit(j, first + k);
        ClearOneMore(lv[j], first, k);
        k := k + 1;
      }
    }

    /** The loop over the levels, with its early exit. */
    method MarkUsed(order: nat, i: nat)
      requires Valid() && order <= MAX_ORDER && i < numBits[order]
      modifies bitmaps
      ensures Valid() && View() == TakeFrom(old(View()), order, i, 0)
    {
      hide View, Bits, Unpack, BitOf, Mask, Cleared, First, Count, TakeFrom, Shaped;
      ghost var goal := TakeFrom(View(), order, i, 0);
      var j := 0;
      while j <= MAX_ORDER
        invariant j <= MAX_ORDER + 1 && Valid()
        invariant TakeFrom(View(), order, i, j) == goal
        decreases MAX_ORDER + 1 - j
      {
        FirstInside(View(), order, i, j);
        TakeStep(View(), order, i, j);
        var start := First(order, i, j);
        var isFree := IsBitSet(j, start);
        if !isFree {
          return;
        }
        ghost var lv := View();
        ClearRange(j, start, Count(order, j));
        KeepsShape(lv, View());
        j := j + 1;
      }
      TakeDone(View(), order, i);
    }

    /** Allocates a block: the lowest of its order that is marked free, or -1. */
    method PmallocOrder(order: nat) returns (pfn: int)
      requires Valid() && order <= MAX_ORDER
      modifies bitmaps
      ensures Valid() && (View(), pfn) == Pmalloc(old(View()), order)
    {
      hide View, Bits, Unpack, BitOf, Mask, TakeFrom, Shl, Shaped;
      var i := 0;
      while i < numBits[order]
        invariant i <= numBits[order] && Valid() && View() == old(View())
        invariant Lowest(View()[order], i) == Lowest(View()[order], 0)
      {
        var isFree := IsBitSet(order, i);
        if isFree {
          MarkUsed(order, i);
          return Shl(i, order);
        }
        i := i + 1;
      }
      pfn := -1;
    }

    /** Allocates `size` bytes worth of frames. */
    method PmallocBytes(size: int) returns (pfn: int, ghost order: nat)
      requires Valid() && 0 <= size <= 128 * PAGE
      modifies bitmaps
      ensures IsOrder(size, order) && order <= MAX_ORDER
      ensures Valid() && (View(), pfn) == Pmalloc(old(View()), order)
    {
      var o := GetOrder(size);
      order := o;
      SmallRequest(size, o);
      pfn := PmallocOrder(o);
    }

    /** Frees one frame; the loop goes on while the frame it looks at on level 0 is free. */
    method PfreeFrame(pfn: nat)
      requires Valid() && pfn < numBits[0]
      modifies bitmaps
      ensures Valid() && View() == Pfree(old(View()), pfn)
    {
      hide View, Bits, Unpack, BitOf, Mask, Shr, Other;
      ghost var goal := Pfree(View(), pfn);
      var j := 0;
      while j <= MAX_ORDER
        invariant j <= MAX_ORDER + 1 && Valid()
        invariant FreeFrom(View(), pfn, j) == goal
        decreases MAX_ORDER + 1 - j
      {
        ShrInside(View(), pfn, j);
        var start := Shr(pfn, j);
        ghost var lv := View();
        SetBit(j, start);
        KeepsShape(lv, View());
        LevelZeroIsLongest(lv, pfn, j);
        var other := IsBitSet(0, Other(start));
        if !other {
          return;
        }
        j := j + 1;
      }
    }

    /** All frames free. */
    constructor (frames: nat)
      requires frames % 128 == 0
      ensures Valid() && View() == AllFree(frames)
      ensures fresh(bitmaps)
    {
      var bs, ns := NewBitmaps(frames);
      bitmaps, numBits := bs, ns;
      new;
      hide Unpack, BitOf, Mask, Pairs, Shr, Shaped, Coherent, View;
      forall j | 0 <= j <= MAX_ORDER ensures Bits(j) == AllFree(frames)[j] {
        OnesUnpack(bitmaps[j][..], numBits[j]);
      }
      assert View() == AllFree(frames);
      AllFreeCoherent(frames);
      CoherentShaped(AllFree(frames));
    }
  }

  /** One array of ones for every level. */
  method NewBitmaps(frames: nat) returns (bs: seq<array<bv8>>, ns: seq<nat>)
    ensures |bs| == |ns| == MAX_ORDER + 1 && fresh(bs)
    ensures forall j :: 0 <= j <= MAX_ORDER ==> ns[j] == Shr(frames, j) && bs[j].Length == (ns[j] + 7) / 8
    ensures forall j, k :: 0 <= j < k <= MAX_ORDER ==> bs[j] != bs[k]
    ensures forall j :: 0 <= j <= MAX_ORDER ==> AllSet(bs[j][..])
  {
    hide Shr;
    bs, ns := [], [];
    var i := 0;
    while i <= MAX_ORDER
      invariant i <= MAX_ORDER + 1 && |bs| == |ns| == i
      invariant forall j :: 0 <= j < i ==> fresh(bs[j])
      invariant forall j :: 0 <= j < i ==> ns[j] == Shr(frames, j) && bs[j].Length == (ns[j] + 7) / 8
      invariant forall j, k :: 0 <= j < k < i ==> bs[j] != bs[k]
      invariant forall j :: 0 <= j < i ==> AllSet(bs[j][..])
    {
      var n := Shr(frames, i);
      var a := new bv8[(n + 7) / 8](_ => 0xFF);
      assert AllSet(a[..]);
      bs := bs + [a];
      ns := ns + [n];
      i := i + 1;
    }
  }

  ghost predicate AllSet(bytes: seq<bv8>) {
    forall k :: 0 <= k < |bytes| ==> bytes[k] == 0xFF
  }

  lemma {:induction false} OnesUnpack(bytes: seq<bv8>, n: nat)
    requires n <= 8 * |bytes| && AllSet(bytes)
    ensures Unpack(bytes, n) == seq(n, _ => true)
  {
    forall i | 0 <= i < n ensures Unpack(bytes, n)[i] {
      AllOnes(i % 8);
    }
  }

  lemma {:induction false} TakeDone(lv: Levels, order: nat, i: nat)
    ensures TakeFrom(lv, order, i, MAX_ORDER + 1) == lv
  {
  }

  lemma ClearNothing(lv: Levels, j: nat, first: nat)
    requires j < |lv|
    ensures lv == lv[j := Cleared(lv[j], first, first)]
  {
    assert Cleared(lv[j], first, first) == lv[j];
  }

  lemma ClearOneMore(bits: seq<bool>, first: nat, k: nat)
    requires first + k < |bits|
    ensures Cleared(bits, first, first + k)[first + k := false] == Cleared(bits, first, first + k + 1)
  {
  }

  lemma KeepsShape(lv: Levels, lv': Levels)
    requires Shaped(lv) && |lv'| == |lv| && forall j :: 0 <= j < |lv| ==> |lv'[j]| == |lv[j]|
    ensures Shaped(lv')
  {
  }

  lemma {:induction false} LevelZeroIsLongest(lv: Levels, pfn: nat, j: nat)
    requires Shaped(lv) && pfn < |lv[0]| && j <= MAX_ORDER
    ensures Other(Shr(pfn, j)) < |lv[0]|
  {
    assert |lv[1 - 1]| == 2 * |lv[1]|;
    ShrShrinks(pfn, j);
  }

  lemma {:induction false} ShrShrinks(x: nat, j: nat)
    ensures Shr(x, j) <= x
    decreases j
  {
    if j > 0 { ShrShrinks(x, j - 1); }
  }
}
