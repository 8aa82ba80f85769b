/**
  The heap allocator as a state machine: what allocating, freeing and expanding do to the tree of
  free blocks, the bounds of the heap and the headers in memory, in 32-bit arithmetic, and what
  holds over every run.
 */
module HeapModel {
  import opened Machine
  import opened AvlTree
  import opened FreeBlocks

  const HEADER := 8            // bytes of the header in front of every allocated block
  const MAGIC := 0x5AFE205E

  datatype Header = Header(magic: int, size: int)

  /** `headers` holds the words of memory the allocator reads back, by address. */
  datatype Heap<Id> = Heap(tree: Tree<Id>, start: int, end: int, max: int, headers: map<int, Header>)

  // ---------------------------------------------------------------- allocating

  datatype Allocation<Id> = Fault | Done(heap: Heap<Id>, addr: int)

  /** Moves the end of the heap up by `size` bytes, rounded to pages; 0 reports a refusal. */
  function Expand<Id>(h: Heap<Id>, size: int): (Heap<Id>, int) {
    var newEnd := AlignUp(Wrap(h.end + size));
    if newEnd > Wrap(h.start + h.max) then (h, 0)
    else (h.(end := newEnd), Wrap(newEnd - h.start))
  }

  /** The size the search is asked for. */
  function Need(align: bool, size: int): int {
    Wrap(size + (if align then PAGE - 1 else 0) + HEADER)
  }

  function Stamped<Id>(h: Heap<Id>, addr: int, size: int): Heap<Id> {
    h.(headers := h.headers[addr := Header(MAGIC, size)])
  }

  /** Where the header goes when the block starts at `base`. */
  function Placed(align: bool, base: int): int {
    if align then Wrap(AlignUp(Wrap(base + HEADER)) - HEADER) else base
  }

  function AllocExpanding<Id>(h: Heap<Id>, align: bool, size: int): Allocation<Id> {
    var addr := Placed(align, h.end);
    var (h', r) := Expand(h, Wrap(Wrap(addr - h.end) + HEADER + size));
    if r == 0 then Done(h', 0) else Done(Stamped(h', addr, size), Wrap(addr + HEADER))
  }

  /** Carving the front off a block, and dropping the node if nothing is left. */
  function Carved<Id>(t: Tree<Id>, b: int, base: int, left: int): Tree<Id> {
    var u := Carve(t, b, base, left);
    if left == 0 then Delete(u, base) else u
  }

  /** The fragment in front of an aligned block is inserted under a base that is still in the tree. */
  function AllocFrom<Id>(h: Heap<Id>, align: bool, size: int, best: Tree<Id>): Allocation<Id>
    requires best.Br? && h.tree.Br?
  {
    var moved := align && best.base % PAGE != PAGE - HEADER;
    var addr := if moved then Placed(true, best.base) else best.base;
    var off := Wrap(addr - best.base);
    if moved && off > HEADER && InsertFaults(h.tree, best.base, off, h.tree.id) then Fault
    else
      var t1 := if moved && off > HEADER then Insert(h.tree, best.base, off, h.tree.id) else h.tree;
      var base := Wrap(addr + HEADER + size);
      var left := Wrap(best.size - (off + HEADER + size));
      Done(Stamped(h.(tree := Carved(t1, best.base, base, left)), addr, size), Wrap(addr + HEADER))
  }

  function Alloc<Id>(h: Heap<Id>, align: bool, size: int): Allocation<Id> {
    var best := BestFit(h.tree, Need(align, size));
    if best.Nil? || h.tree.Nil? then AllocExpanding(h, align, size) else AllocFrom(h, align, size, best)
  }

  // ---------------------------------------------------------------- freeing

  datatype Release<Id> = Invalid | Overlap | BadMagic | Ignored | Crash | Freed(heap: Heap<Id>)

  /** The tree without the block `n`, if there is one. */
  function Cut<Id>(t: Tree<Id>, n: Tree<Id>): Tree<Id> {
    if n.Br? then Delete(t, n.base) else t
  }

  function SizeOf<Id>(n: Tree<Id>): int {
    if n.Br? then n.size else 0
  }

  /** Takes both neighbours out, if present, and puts one block back. */
  function Merge<Id>(h: Heap<Id>, base: int, size: int, l: Tree<Id>, r: Tree<Id>, nu: Id): Release<Id> {
    var from := if l.Br? then l.base else base;
    var total := size + SizeOf(l) + SizeOf(r);
    var t := Cut(Cut(h.tree, l), r);
    if InsertFaults(t, from, total, nu) then Crash else Freed(h.(tree := Insert(t, from, total, nu)))
  }

  function FreeRange<Id>(h: Heap<Id>, base: int, size: int, nu: Id): Release<Id> {
    if size == 0 || base < h.start || Wrap(base + size) > h.end then Invalid
    else if PathClashes(h.tree, base, size) then Overlap
    else
      var (l, r) := Neighbours(h.tree, base, size, Nil, Nil);
      Merge(h, base, size, l, r, nu)
  }

  /** The word read at `addr`; unwritten memory holds no header. */
  function HeaderAt<Id>(h: Heap<Id>, addr: int): Header {
    if addr in h.headers then h.headers[addr] else Header(0, 0)
  }

  /** Freeing a pointer: its size is read back from the header in front of it. */
  function FreePointer<Id>(h: Heap<Id>, ptr: int, nu: Id): Release<Id> {
    if ptr == 0 then Ignored
    else
      var hd := HeaderAt(h, Wrap(ptr - HEADER));
      if hd.magic != MAGIC then BadMagic
      else FreeRange(h, Wrap(ptr - HEADER), Wrap(hd.size + HEADER), nu)
  }

  // ---------------------------------------------------------------- the invariant

  /** Address `x` belongs to a free block. */
  ghost predicate InFree(m: map<int, int>, x: int) {
    exists b :: b in m && b <= x < b + m[b]
  }

  /** Blocks inside the bounds that never touch. */
  ghost predicate Tidy(m: map<int, int>, lo: int, hi: int) {
    Separate(m) && forall b :: b in m ==> lo <= b && b + m[b] <= hi
  }

  /** `m'` has exactly the addresses of `m` and of the range. */
  ghost predicate Grown(m: map<int, int>, m': map<int, int>, base: int, size: int) {
    forall x :: InFree(m', x) <==> InFree(m, x) || base <= x < base + size
  }

  ghost predicate Bounded<Id>(h: Heap<Id>) {
    0 <= h.start <= h.end < WORD && 0 <= h.max < WORD
  }

  /** The ends of the heap are page boundaries. */
  ghost predicate Paged<Id>(h: Heap<Id>) {
    h.start % PAGE == 0 && h.end % PAGE == 0
  }

  /** The free blocks: ordered, non-empty, never touching, inside the heap. */
  ghost predicate FreeOk<Id>(h: Heap<Id>) {
    && Bounded(h)
    && Sound(h.tree)
    && NotAbove(h.tree)
    && Tidy(Blocks(h.tree), h.start, h.end)
  }

  /** An allocated block with its header lies inside the heap and touches no free block. */
  ghost predicate LiveOne<Id>(h: Heap<Id>, p: int, size: int) {
    && 0 <= size
    && h.start <= p - HEADER && p + size <= h.end
    && HeaderAt(h, p - HEADER) == Header(MAGIC, size)
    && forall b :: b in Blocks(h.tree) ==> p + size <= b || b + Blocks(h.tree)[b] <= p - HEADER
  }

  /** The whole invariant; `live` maps the pointers handed out to their sizes. */
  ghost predicate Inv<Id>(h: Heap<Id>, live: map<int, int>) {
    && FreeOk(h)
    && Paged(h)
    && (forall p :: p in live ==> LiveOne(h, p, live[p]))
    && (forall p, q :: p in live && q in live && p < q ==> p + live[p] <= q - HEADER)
  }

  // ---------------------------------------------------------------- freeing is exact

  lemma SeparateIsDisjoint(m: map<int, int>)
    requires Separate(m)
    ensures Disjoint(m)
  {
  }

  function Without<Id>(m: map<int, int>, n: Tree<Id>): map<int, int> {
    if n.Br? then m - {n.base} else m
  }

  /** The blocks left after both neighbours went and the merged block came. */
  function Merged<Id>(m: map<int, int>, base: int, size: int, l: Tree<Id>, r: Tree<Id>): map<int, int> {
    Without(Without(m, l), r)[(if l.Br? then l.base else base) := size + SizeOf(l) + SizeOf(r)]
  }

  lemma {:induction false} CutRefines<Id>(t: Tree<Id>, n: Tree<Id>)
    requires Sound(t) && NotAbove(t)
    ensures Blocks(Cut(t, n)) == Without(Blocks(t), n) && Sound(Cut(t, n)) && NotAbove(Cut(t, n))
  {
    if n.Br? { DeleteRefinesMap(t, n.base); }
  }

  lemma {:induction false} MergeRefines<Id>(t: Tree<Id>, from: int, total: int, l: Tree<Id>, r: Tree<Id>, nu: Id)
    requires Sound(t) && NotAbove(t) && total != 0
    requires from !in Without(Without(Blocks(t), l), r)
    ensures var u := Insert(Cut(Cut(t, l), r), from, total, nu);
            && Sound(u) && NotAbove(u)
            && Blocks(u) == Without(Without(Blocks(t), l), r)[from := total]
  {
    CutRefines(t, l);
    CutRefines(Cut(t, l), r);
    InsertRefinesMap(Cut(Cut(t, l), r), from, total, nu);
  }

  lemma {:induction false} MergedBaseIsNew<Id>(m: map<int, int>, base: int, size: int, l: Tree<Id>, r: Tree<Id>)
    requires Separate(m) && size > 0 && !Overlapped(m, base, size) && AreNeighbours(m, base, size, l, r)
    ensures (if l.Br? then l.base else base) !in Without(Without(m, l), r)
    ensures size + SizeOf(l) + SizeOf(r) > 0
  {
    assert forall k :: k in m ==> !(k < base + size && base < k + m[k]);
  }

  /** Each block of the result is either one of the old blocks, clear of the range, or the merged one. */
  lemma {:induction false} MergedParts<Id>(m: map<int, int>, base: int, size: int, l: Tree<Id>, r: Tree<Id>, b: int)
    requires Separate(m) && size > 0 && !Overlapped(m, base, size) && AreNeighbours(m, base, size, l, r)
    ensures var m' := Merged(m, base, size, l, r);
            var from, to := base - SizeOf(l), base + size + SizeOf(r);
            && from in m' && m'[from] == to - from && from <= base && base + size <= to
            && (b in m' && b != from ==> b in m && m'[b] == m[b] && (b + m[b] < from || to < b))
            && (b in m ==> if from <= b < to then (l.Br? && b == l.base) || (r.Br? && b == r.base)
                           else b in m' && m'[b] == m[b] && b != from)
  {
    var m' := Merged(m, base, size, l, r);
    var from, to := base - SizeOf(l), base + size + SizeOf(r);
    assert from == if l.Br? then l.base else base;
    if b in m {
      assert !(b < base + size && base < b + m[b]);
    }
  }

  /** Merging keeps the blocks apart. */
  lemma {:induction false} MergedSeparate<Id>(m: map<int, int>, base: int, size: int, l: Tree<Id>, r: Tree<Id>)
    requires Separate(m) && size > 0 && !Overlapped(m, base, size) && AreNeighbours(m, base, size, l, r)
    ensures Separate(Merged(m, base, size, l, r))
  {
    var m' := Merged(m, base, size, l, r);
    forall a | a in m' ensures m'[a] > 0 {
      MergedParts(m, base, size, l, r, a);
    }
    forall a, b | a in m' && b in m' && a < b ensures a + m'[a] < b {
      MergedParts(m, base, size, l, r, a);
      MergedParts(m, base, size, l, r, b);
    }
  }

  lemma {:induction false} MergedCoversOld<Id>(m: map<int, int>, base: int, size: int, l: Tree<Id>, r: Tree<Id>, x: int)
    requires Separate(m) && size > 0 && !Overlapped(m, base, size) && AreNeighbours(m, base, size, l, r)
    ensures InFree(m, x) || base <= x < base + size ==> InFree(Merged(m, base, size, l, r), x)
  {
    hide Merged, Overlapped, AreNeighbours;
    var m' := Merged(m, base, size, l, r);
    var from, to := base - SizeOf(l), base + size + SizeOf(r);
    MergedParts(m, base, size, l, r, from);
    assert from <= x < to ==> from <= x < from + m'[from];
    if InFree(m, x) {
      var b :| b in m && b <= x < b + m[b];
      MergedParts(m, base, size, l, r, b);
      if from <= b < to { NeighbourInside(m, base, size, l, r, b); }
    }
  }

  lemma NeighbourInside<Id>(m: map<int, int>, base: int, size: int, l: Tree<Id>, r: Tree<Id>, b: int)
    requires AreNeighbours(m, base, size, l, r) && b in m && ((l.Br? && b == l.base) || (r.Br? && b == r.base))
    requires size > 0 && SizeOf(l) >= 0 && SizeOf(r) >= 0
    ensures base - SizeOf(l) <= b && b + m[b] <= base + size + SizeOf(r)
  {
  }

  lemma InNeighbour<Id>(m: map<int, int>, base: int, size: int, l: Tree<Id>, r: Tree<Id>, x: int)
    requires AreNeighbours(m, base, size, l, r) && base - SizeOf(l) <= x < base + size + SizeOf(r)
    requires !(base <= x < base + size)
    ensures InFree(m, x)
  {
    var n := if x < base then l else r;
    assert n.Br? && n.base in m && n.base <= x < n.base + m[n.base];
  }

  /** Merging covers exactly the old free addresses and the new range. */
  lemma {:induction false} MergedCovers<Id>(m: map<int, int>, base: int, size: int, l: Tree<Id>, r: Tree<Id>, x: int)
    requires Separate(m) && size > 0 && !Overlapped(m, base, size) && AreNeighbours(m, base, size, l, r)
    ensures InFree(Merged(m, base, size, l, r), x) <==> InFree(m, x) || base <= x < base + size
  {
    hide Merged, Overlapped, AreNeighbours;
    var m' := Merged(m, base, size, l, r);
    var from := base - SizeOf(l);
    MergedCoversOld(m, base, size, l, r, x);
    MergedParts(m, base, size, l, r, from);
    if InFree(m', x) && !(base <= x < base + size) {
      var b :| b in m' && b <= x < b + m'[b];
      MergedParts(m, base, size, l, r, b);
      if b == from { InNeighbour(m, base, size, l, r, x); }
    }
  }

  lemma {:induction false} MergedTidy<Id>(m: map<int, int>, lo: int, hi: int, base: int, size: int,
                                          l: Tree<Id>, r: Tree<Id>)
    requires Tidy(m, lo, hi) && size > 0 && lo <= base && base + size <= hi
    requires !Overlapped(m, base, size) && AreNeighbours(m, base, size, l, r)
    ensures Tidy(Merged(m, base, size, l, r), lo, hi)
    ensures Grown(m, Merged(m, base, size, l, r), base, size)
  {
    var m' := Merged(m, base, size, l, r);
    MergedSeparate(m, base, size, l, r);
    forall b | b in m' ensures lo <= b && b + m'[b] <= hi {
      MergedParts(m, base, size, l, r, b);
    }
    forall x ensures InFree(m', x) <==> InFree(m, x) || base <= x < base + size {
      MergedCovers(m, base, size, l, r, x);
    }
  }

  /** The heap with the merged block in place of the range and its neighbours, fault or no fault. */
  lemma {:induction false} MergedHeap<Id>(h: Heap<Id>, base: int, size: int, l: Tree<Id>, r: Tree<Id>, nu: Id)
    requires FreeOk(h) && size > 0 && h.start <= base && base + size <= h.end
    requires !Overlapped(Blocks(h.tree), base, size) && AreNeighbours(Blocks(h.tree), base, size, l, r)
    ensures var from, total := if l.Br? then l.base else base, size + SizeOf(l) + SizeOf(r);
            var h' := h.(tree := Insert(Cut(Cut(h.tree, l), r), from, total, nu));
            && FreeOk(h') && Grown(Blocks(h.tree), Blocks(h'.tree), base, size)
            && Blocks(h'.tree) == Merged(Blocks(h.tree), base, size, l, r)
  {
    hide Insert, Delete, Blocks, Ordered, Positive, NotAbove;
    var m := Blocks(h.tree);
    var from, total := if l.Br? then l.base else base, size + SizeOf(l) + SizeOf(r);
    MergedBaseIsNew(m, base, size, l, r);
    MergeRefines(h.tree, from, total, l, r, nu);
    MergedTidy(m, h.start, h.end, base, size, l, r);
  }

  lemma {:induction false} MergeExact<Id>(h: Heap<Id>, base: int, size: int, l: Tree<Id>, r: Tree<Id>, nu: Id)
    requires FreeOk(h) && size > 0 && h.start <= base && base + size <= h.end
    requires !Overlapped(Blocks(h.tree), base, size) && AreNeighbours(Blocks(h.tree), base, size, l, r)
    ensures var o := Merge(h, base, size, l, r, nu);
            && (o.Crash? || o.Freed?)
            && (o.Freed? ==>
                  && FreeOk(o.heap) && o.heap == h.(tree := o.heap.tree)
                  && Grown(Blocks(h.tree), Blocks(o.heap.tree), base, size))
  {
    hide Insert, InsertFaults, Delete, Blocks, Ordered, Positive, NotAbove;
    MergedHeap(h, base, size, l, r, nu);
  }

  /**
    Freeing a range in bounds: it is refused exactly when it shares an address with a free block;
    otherwise, unless the insertion faults, the free addresses grow by exactly that range, and
    the blocks stay ordered, in bounds and apart.
   */
  lemma {:induction false} FreeExact<Id>(h: Heap<Id>, base: int, size: int, nu: Id)
    requires FreeOk(h) && size > 0 && h.start <= base && base + size <= h.end
    ensures var o := FreeRange(h, base, size, nu);
            && (o.Overlap? <==> Overlapped(Blocks(h.tree), base, size))
            && (o.Overlap? || o.Crash? || o.Freed?)
            && (o.Freed? ==>
                  && FreeOk(o.heap) && o.heap == h.(tree := o.heap.tree)
                  && Grown(Blocks(h.tree), Blocks(o.heap.tree), base, size))
  {
    SeparateIsDisjoint(Blocks(h.tree));
    PathDetectsOverlap(h.tree, base, size);
    if !Overlapped(Blocks(h.tree), base, size) {
      PathFindsNeighbours(h.tree, base, size);
      var (l, r) := Neighbours(h.tree, base, size, Nil, Nil);
      MergeExact(h, base, size, l, r, nu);
    }
  }

  // ---------------------------------------------------------------- allocating is exact

  /** The blocks after the first `cut` bytes of the block at `b` went. */
  function Shaved(m: map<int, int>, b: int, cut: int): map<int, int>
    requires b in m
  {
    if cut == m[b] then m - {b} else (m - {b})[b + cut := m[b] - cut]
  }

  /** `m'` has exactly the addresses of `m` outside the range. */
  ghost predicate Lessened(m: map<int, int>, m': map<int, int>, base: int, size: int) {
    forall x :: InFree(m', x) <==> InFree(m, x) && !(base <= x < base + size)
  }

  lemma {:induction false} ShavedTidy(m: map<int, int>, lo: int, hi: int, b: int, cut: int)
    requires Tidy(m, lo, hi) && b in m && 0 < cut <= m[b]
    ensures Tidy(Shaved(m, b, cut), lo, hi)
    ensures Lessened(m, Shaved(m, b, cut), b, cut)
  {
    ShavedApart(m, lo, hi, b, cut);
    hide Shaved, Tidy;
    var m' := Shaved(m, b, cut);
    forall x ensures InFree(m', x) <==> InFree(m, x) && !(b <= x < b + cut) {
      ShavedCovers(m, lo, hi, b, cut, x);
    }
  }

  lemma {:induction false} ShavedApart(m: map<int, int>, lo: int, hi: int, b: int, cut: int)
    requires Tidy(m, lo, hi) && b in m && 0 < cut <= m[b]
    ensures Tidy(Shaved(m, b, cut), lo, hi)
  {
    var m' := Shaved(m, b, cut);
    forall k | k in m' ensures k == b + cut || (k in m && k != b && m'[k] == m[k]) {
    }
    assert b + cut in m' ==> b + cut + m'[b + cut] == b + m[b];
  }

  lemma {:induction false} ShavedCovers(m: map<int, int>, lo: int, hi: int, b: int, cut: int, x: int)
    requires Tidy(m, lo, hi) && b in m && 0 < cut <= m[b]
    ensures InFree(Shaved(m, b, cut), x) <==> InFree(m, x) && !(b <= x < b + cut)
  {
    var m' := Shaved(m, b, cut);
    if InFree(m, x) && !(b <= x < b + cut) {
      var k :| k in m && k <= x < k + m[k];
      if k == b { assert b + cut in m'; } else { assert k in m'; }
    }
    if InFree(m', x) {
      var k :| k in m' && k <= x < k + m'[k];
      if k == b + cut && cut < m[b] {
        assert b <= x < b + m[b];
      } else {
        assert k in m && k != b;
      }
    }
  }

  lemma ShavedReplaceable<Id>(t: Tree<Id>, lo: int, hi: int, b: int, cut: int)
    requires Tidy(Blocks(t), lo, hi) && b in Blocks(t) && 0 < cut <= Blocks(t)[b]
    ensures Replaceable(t, b, b + cut) && b + cut !in Blocks(t)
  {
  }

  lemma PutThenRemoved(m: map<int, int>, b: int, c: int, v: int)
    requires c !in m
    ensures (m - {b})[c := v] - {c} == m - {b}
  {
  }

  lemma {:induction false} CarvedRefines<Id>(t: Tree<Id>, b: int, cut: int)
    requires Sound(t) && NotAbove(t)
    requires b in Blocks(t) && Replaceable(t, b, b + cut) && b + cut !in Blocks(t)
    ensures var u := Carved(t, b, b + cut, Blocks(t)[b] - cut);
            Sound(u) && NotAbove(u) && Blocks(u) == Shaved(Blocks(t), b, cut)
  {
    hide Carve, Delete, Blocks, Ordered, Positive, NotAbove, Replaceable;
    var m := Blocks(t);
    CarveRefinesMap(t, b, b + cut, m[b] - cut);
    if cut == m[b] {
      DropNode(Carve(t, b, b + cut, 0), m, b, b + cut);
    }
  }

  lemma {:induction false} DropNode<Id>(t: Tree<Id>, m: map<int, int>, b: int, key: int)
    requires Sound(t) && NotAbove(t) && key !in m && Blocks(t) == (m - {b})[key := 0]
    ensures Sound(Delete(t, key)) && NotAbove(Delete(t, key)) && Blocks(Delete(t, key)) == m - {b}
  {
    DeleteRefinesMap(t, key);
    PutThenRemoved(m, b, key, 0);
  }

  /** Nothing in a request wraps around in 32 bits. */
  predicate RequestFits<Id>(h: Heap<Id>, align: bool, size: int) {
    && size + (if align then PAGE - 1 else 0) + HEADER < WORD
    && (BestFit(h.tree, Need(align, size)).Nil? ==>
          h.end + (if align then PAGE else HEADER) + size + PAGE - 1 < WORD)
  }

  /** Where an aligned block goes: up to a page less one byte further, with its data on a page boundary. */
  lemma PlacedRounds(base: int)
    requires 0 <= base && base + HEADER + PAGE - 1 < WORD
    ensures base <= Placed(true, base) < base + PAGE
    ensures (Placed(true, base) + HEADER) % PAGE == 0
    ensures base % PAGE == 0 ==> Placed(true, base) == base + PAGE - HEADER
  {
    WrapSmall(base + HEADER);
    AlignUpRounds(base + HEADER);
    WrapSmall(AlignUp(base + HEADER) - HEADER);
  }

  /** Allocation from `best` with its header `off` bytes in, in plain arithmetic. */
  function AllocAt<Id>(h: Heap<Id>, size: int, best: Tree<Id>, off: int): Allocation<Id>
    requires best.Br? && h.tree.Br?
  {
    if off > HEADER && InsertFaults(h.tree, best.base, off, h.tree.id) then Fault
    else
      var t := if off > HEADER then Insert(h.tree, best.base, off, h.tree.id) else h.tree;
      var cut := off + HEADER + size;
      Done(Stamped(h.(tree := Carved(t, best.base, best.base + cut, best.size - cut)), best.base + off, size),
           best.base + off + HEADER)
  }

  /** A request that fits its block never wraps: the 32-bit code computes the plain allocation. */
  lemma {:induction false} AllocFromPlain<Id>(h: Heap<Id>, align: bool, size: int, best: Tree<Id>) returns (off: int)
    requires 0 <= size && best.Br? && h.tree.Br?
    requires 0 <= best.base && best.base + best.size < WORD
    requires best.size >= size + (if align then PAGE - 1 else 0) + HEADER
    ensures off == if align && best.base % PAGE != PAGE - HEADER then Placed(true, best.base) - best.base else 0
    ensures 0 <= off && off + HEADER + size <= best.size
    ensures align ==> (best.base + off + HEADER) % PAGE == 0
    ensures AllocFrom(h, align, size, best) == AllocAt(h, size, best, off)
  {
    hide Wrap, AlignUp, Insert, InsertFaults, Carved;
    if align { PlacedRounds(best.base); }
    off := if align && best.base % PAGE != PAGE - HEADER then Placed(true, best.base) - best.base else 0;
    WrapSmall(off);
    WrapSmall(best.base + off + HEADER + size);
    WrapSmall(best.size - (off + HEADER + size));
    WrapSmall(best.base + off + HEADER);
  }

  /** The tree after the fragment was refused and `cut` bytes were carved. */
  lemma {:induction false} CarveStep<Id>(t: Tree<Id>, lo: int, hi: int, b: int, off: int, cut: int)
    requires Sound(t) && NotAbove(t) && Tidy(Blocks(t), lo, hi) && t.Br?
    requires b in Blocks(t) && 0 < cut <= Blocks(t)[b]
    ensures var t1 := if off > HEADER then Insert(t, b, off, t.id) else t;
            var u := Carved(t1, b, b + cut, Blocks(t)[b] - cut);
            Sound(u) && NotAbove(u) && Blocks(u) == Shaved(Blocks(t), b, cut)
  {
    hide Insert, Carved, Blocks, Ordered, Positive, NotAbove, Replaceable, Shaved;
    var t1 := if off > HEADER then Insert(t, b, off, t.id) else t;
    InsertRefinesMap(t, b, off, t.id);
    ShavedReplaceable(t1, lo, hi, b, cut);
    CarvedRefines(t1, b, cut);
  }

  /** The outcome of a carving allocation, with the tree it leaves. */
  lemma {:induction false} AllocAtShape<Id>(h: Heap<Id>, size: int, best: Tree<Id>, off: int) returns (u: Tree<Id>)
    requires FreeOk(h) && best.Br? && h.tree.Br?
    requires best.base in Blocks(h.tree) && Blocks(h.tree)[best.base] == best.size
    requires 0 < off + HEADER + size <= best.size
    ensures AllocAt(h, size, best, off).Done? ==>
      AllocAt(h, size, best, off) ==
      Done(Stamped(h.(tree := u), best.base + off, size), best.base + off + HEADER)
    ensures Sound(u) && NotAbove(u) && Blocks(u) == Shaved(Blocks(h.tree), best.base, off + HEADER + size)
  {
    hide SettleInsert, Insert, Delete, Carve, InsertFaults, Blocks, Ordered;
    var cut := off + HEADER + size;
    var t := if off > HEADER then Insert(h.tree, best.base, off, h.tree.id) else h.tree;
    u := Carved(t, best.base, best.base + cut, best.size - cut);
    CarveStep(h.tree, h.start, h.end, best.base, off, cut);
  }

  /** `live` still satisfies the invariant when the free blocks only lose addresses. */
  lemma {:induction false} LiveSurvives<Id>(h: Heap<Id>, h': Heap<Id>, p: int, size: int)
    requires LiveOne(h, p, size) && h'.start == h.start && h.end <= h'.end
    requires HeaderAt(h', p - HEADER) == HeaderAt(h, p - HEADER)
    requires Separate(Blocks(h.tree)) && Separate(Blocks(h'.tree))
    requires forall x :: InFree(Blocks(h'.tree), x) ==> InFree(Blocks(h.tree), x)
    ensures LiveOne(h', p, size)
  {
    hide Blocks;
    var m, m' := Blocks(h.tree), Blocks(h'.tree);
    forall b | b in m' ensures p + size <= b || b + m'[b] <= p - HEADER {
      var x := if b < p - HEADER then p - HEADER else b;
      if x < p + size {
        assert !InFree(m, x) && !InFree(m', x);
      }
    }
  }

  /** A range inside one free block is clear of everything allocated. */
  lemma {:induction false} InsideFree<Id>(h: Heap<Id>, live: map<int, int>, b: int, p: int)
    requires Inv(h, live) && b in Blocks(h.tree) && p in live
    ensures p + live[p] <= b || b + Blocks(h.tree)[b] <= p - HEADER
  {
  }

  /** A new block that lies in what a free block lost joins the live ones. */
  lemma {:induction false} JoinsLive<Id>(h: Heap<Id>, h': Heap<Id>, live: map<int, int>, addr: int, size: int)
    requires Inv(h, live) && FreeOk(h') && Paged(h') && h'.start == h.start && h.end <= h'.end
    requires h'.headers == h.headers[addr - HEADER := Header(MAGIC, size)]
    requires 0 <= size && h.start <= addr - HEADER && addr + size <= h'.end
    requires forall x :: InFree(Blocks(h'.tree), x) ==> InFree(Blocks(h.tree), x) && !(addr - HEADER <= x < addr + size)
    requires forall p :: p in live ==> p + live[p] <= addr - HEADER || addr + size <= p - HEADER
    ensures Inv(h', live[addr := size])
  {
    var m' := Blocks(h'.tree);
    forall p | p in live ensures LiveOne(h', p, live[p]) {
      LiveSurvives(h, h', p, live[p]);
    }
    forall b | b in m' ensures addr + size <= b || b + m'[b] <= addr - HEADER {
      if !(addr + size <= b || b + m'[b] <= addr - HEADER) {
        var x := if b < addr - HEADER then addr - HEADER else b;
        assert InFree(m', x);
        assert false;
      }
    }
    assert LiveOne(h', addr, size);
  }

  /** Carving a block for a request keeps the invariant and takes exactly the front of the block. */
  lemma {:induction false} AllocAtSafe<Id>(h: Heap<Id>, live: map<int, int>, size: int, best: Tree<Id>, off: int)
    requires Inv(h, live) && 0 <= size && best.Br? && h.tree.Br?
    requires best.base in Blocks(h.tree) && Blocks(h.tree)[best.base] == best.size
    requires 0 <= off && off + HEADER + size <= best.size
    ensures var o := AllocAt(h, size, best, off);
            o.Done? ==>
              && o.addr == best.base + off + HEADER && o.addr !in live
              && Inv(o.heap, live[o.addr := size])
              && Lessened(Blocks(h.tree), Blocks(o.heap.tree), best.base, off + HEADER + size)
  {
    hide AllocAt, Insert, InsertFaults, Carved, Blocks, Ordered, Positive, NotAbove;
    var u := AllocAtShape(h, size, best, off);
    CarvedSafe(h, live, u, best.base, off + HEADER + size, best.base + off + HEADER, size);
  }

  lemma {:induction false} CarvedSafe<Id>(h: Heap<Id>, live: map<int, int>, u: Tree<Id>, b: int, cut: int,
                                          addr: int, size: int)
    requires Inv(h, live) && 0 <= size && b in Blocks(h.tree) && 0 < cut <= Blocks(h.tree)[b]
    requires b + HEADER <= addr && addr + size == b + cut
    requires Sound(u) && NotAbove(u) && Blocks(u) == Shaved(Blocks(h.tree), b, cut)
    ensures addr !in live
    ensures Inv(Stamped(h.(tree := u), addr - HEADER, size), live[addr := size])
    ensures Lessened(Blocks(h.tree), Blocks(u), b, cut)
  {
    var h' := Stamped(h.(tree := u), addr - HEADER, size);
    ShavedTidy(Blocks(h.tree), h.start, h.end, b, cut);
    forall p | p in live ensures p + live[p] <= addr - HEADER || addr + size <= p - HEADER {
      InsideFree(h, live, b, p);
    }
    JoinsLive(h, h', live, addr, size);
  }

  /** An expansion that does not wrap: the block goes past the old end, inside the new one. */
  lemma {:induction false} ExpandingShape<Id>(h: Heap<Id>, align: bool, size: int)
    requires Bounded(h) && Paged(h) && 0 <= size
    requires h.end + (if align then PAGE else HEADER) + size + PAGE - 1 < WORD
    ensures var o := AllocExpanding(h, align, size);
            && o.Done?
            && (o.addr == 0 ==> o.heap == h)
            && (o.addr != 0 ==>
                  && h.end + HEADER <= o.addr && o.addr + size <= o.heap.end < WORD
                  && o.heap.end % PAGE == 0
                  && o.heap == Stamped(h.(end := o.heap.end), o.addr - HEADER, size)
                  && (align ==> o.addr % PAGE == 0))
  {
    hide Wrap, AlignUp;
    if align { PlacedRounds(h.end); }
    var addr := Placed(align, h.end);
    var grow := addr - h.end + HEADER + size;
    WrapSmall(addr - h.end);
    WrapSmall(grow);
    WrapSmall(h.end + grow);
    AlignUpRounds(h.end + grow);
    WrapSmall(AlignUp(h.end + grow) - h.start);
    WrapSmall(addr + HEADER);
  }

  lemma {:induction false} ExpandingSafe<Id>(h: Heap<Id>, live: map<int, int>, align: bool, size: int)
    requires Inv(h, live) && 0 <= size
    requires h.end + (if align then PAGE else HEADER) + size + PAGE - 1 < WORD
    ensures var o := AllocExpanding(h, align, size);
            && o.Done?
            && (o.addr == 0 ==> o.heap == h)
            && (o.addr != 0 ==> o.addr !in live && Inv(o.heap, live[o.addr := size]) && o.heap.tree == h.tree
                                && (align ==> o.addr % PAGE == 0))
  {
    hide AllocExpanding, Blocks, Ordered, Positive, NotAbove;
    ExpandingShape(h, align, size);
    var o := AllocExpanding(h, align, size);
    if o.addr != 0 {
      forall x | InFree(Blocks(h.tree), x) ensures x < h.end {}
      JoinsLive(h, o.heap, live, o.addr, size);
    }
  }

  /**
    Every request whose arithmetic does not wrap keeps the invariant: the new block with its header
    is inside the heap and disjoint from everything, and page-aligned when asked to be. A null
    answer changes nothing.
   */
  lemma {:induction false} AllocSafe<Id>(h: Heap<Id>, live: map<int, int>, align: bool, size: int)
    requires Inv(h, live) && 0 <= size && RequestFits(h, align, size)
    ensures var o := Alloc(h, align, size);
            o.Done? ==>
              && (o.addr == 0 ==> o.heap == h)
              && (o.addr != 0 ==>
                    && o.addr !in live && Inv(o.heap, live[o.addr := size])
                    && (align ==> o.addr % PAGE == 0)
                    && forall x :: InFree(Blocks(o.heap.tree), x) ==> InFree(Blocks(h.tree), x))
  {
    hide AllocExpanding, AllocFrom, AllocAt, BestFit, Blocks, Ordered, Positive, NotAbove;
    var need := Need(align, size);
    WrapSmall(size + (if align then PAGE - 1 else 0) + HEADER);
    BestFitFits(h.tree, need);
    var best := BestFit(h.tree, need);
    BestFitOfNil(h.tree, need);
    if best.Nil? {
      ExpandingSafe(h, live, align, size);
    } else {
      var off := AllocFromPlain(h, align, size, best);
      AllocAtSafe(h, live, size, best, off);
    }
  }

  // ---------------------------------------------------------------- which block serves a request

  ghost predicate Admissible(align: bool, a: int) {
    align ==> a % PAGE == 0
  }

  /** The first address from `from` on where a block of that kind may start. */
  ghost predicate FirstAdmissible(align: bool, from: int, a: int) {
    from <= a && Admissible(align, a) && forall x :: from <= x < a ==> !Admissible(align, x)
  }

  /** The block at `addr` was cut from the front of the free block `b`, and nothing else changed. */
  ghost predicate CutFrom<Id>(h: Heap<Id>, align: bool, size: int, b: Tree<Id>, h': Heap<Id>, addr: int) {
    && b.Br? && b.base in Blocks(h.tree) && Blocks(h.tree)[b.base] == b.size
    && FirstAdmissible(align, b.base + HEADER, addr) && addr + size <= b.base + b.size
    && Lessened(Blocks(h.tree), Blocks(h'.tree), b.base, addr + size - b.base)
    && h' == h.(tree := h'.tree, headers := h.headers[addr - HEADER := Header(MAGIC, size)])
  }

  /** The heap was moved up to page boundary `e` for a block at `a` past its old end, or the limit forbids that. */
  ghost predicate MovedUp<Id>(h: Heap<Id>, size: int, a: int, e: int, h': Heap<Id>, addr: int) {
    && FirstAdmissible(true, a + size, e)
    && if e > Wrap(h.start + h.max) then addr == 0 && h' == h
       else addr == a && h' == h.(end := e, headers := h.headers[a - HEADER := Header(MAGIC, size)])
  }

  ghost predicate CutPastEnd<Id>(h: Heap<Id>, align: bool, size: int, h': Heap<Id>, addr: int) {
    exists a, e :: FirstAdmissible(align, h.end + HEADER, a) && MovedUp(h, size, a, e, h', addr)
  }

  /**
    Which block serves a request. If no node of the right spine is large enough for it, at its worst
    alignment, the heap is moved up; if one is, the block is the earliest smallest of the chain of fits.
   */
  ghost predicate Served<Id>(h: Heap<Id>, align: bool, size: int, h': Heap<Id>, addr: int) {
    var need := size + (if align then PAGE - 1 else 0) + HEADER;
    if AllBelow(RightSpine(h.tree), need) then CutPastEnd(h, align, size, h', addr)
    else CutFromSmallest(h, align, size, Chain(h.tree, need), h', addr)
  }

  ghost predicate CutFromSmallest<Id>(h: Heap<Id>, align: bool, size: int, c: seq<Tree<Id>>, h': Heap<Id>, addr: int) {
    exists i :: 0 <= i < |c| && EarliestSmallest(c, c[i]) && CutFrom(h, align, size, c[i], h', addr)
  }

  lemma {:induction false} PlacedFirst(align: bool, base: int, off: int)
    requires 0 <= base && (align ==> base + HEADER + PAGE - 1 < WORD)
    requires off == if align && base % PAGE != PAGE - HEADER then Placed(true, base) - base else 0
    ensures FirstAdmissible(align, base + HEADER, base + off + HEADER)
  {
    if align {
      PlacedRounds(base);
      var a := base + off + HEADER;
      forall x | base + HEADER <= x < a ensures !Admissible(align, x) {
        OnePage(x, a);
      }
    }
  }

  /** Less than a page lies between no two page boundaries. */
  lemma OnePage(x: int, a: int)
    requires a % PAGE == 0 && x < a < x + PAGE
    ensures x % PAGE != 0
  {
  }

  lemma {:induction false} AlignUpFirst(x: int)
    requires 0 <= x && x + PAGE - 1 < WORD
    ensures FirstAdmissible(true, x, AlignUp(x))
  {
    AlignUpRounds(x);
    forall y | x <= y < AlignUp(x) ensures !Admissible(true, y) {
      OnePage(y, AlignUp(x));
    }
  }

  lemma {:induction false} AtServes<Id>(h: Heap<Id>, align: bool, size: int, best: Tree<Id>, off: int)
    requires FreeOk(h) && 0 <= size && best.Br? && h.tree.Br?
    requires best.base in Blocks(h.tree) && Blocks(h.tree)[best.base] == best.size
    requires 0 <= off && off + HEADER + size <= best.size
    requires FirstAdmissible(align, best.base + HEADER, best.base + off + HEADER)
    ensures var o := AllocAt(h, size, best, off);
            o.Done? ==> o.addr == best.base + off + HEADER && CutFrom(h, align, size, best, o.heap, o.addr)
  {
    hide AllocAt, Insert, InsertFaults, Carved, Blocks, Ordered, Positive, NotAbove, FirstAdmissible;
    var u := AllocAtShape(h, size, best, off);
    ShavedTidy(Blocks(h.tree), h.start, h.end, best.base, off + HEADER + size);
  }

  lemma {:induction false} ExpandingServes<Id>(h: Heap<Id>, align: bool, size: int)
    requires Bounded(h) && Paged(h) && 0 <= size
    requires h.end + (if align then PAGE else HEADER) + size + PAGE - 1 < WORD
    ensures var o := AllocExpanding(h, align, size);
            o.Done? && CutPastEnd(h, align, size, o.heap, o.addr)
  {
    hide Wrap, AlignUp, FirstAdmissible;
    var off := if align then Placed(true, h.end) - h.end else 0;
    if align { PlacedRounds(h.end); }
    PlacedFirst(align, h.end, off);
    var a := h.end + off + HEADER;
    WrapSmall(off);
    WrapSmall(off + HEADER + size);
    WrapSmall(a + size);
    WrapSmall(a);
    AlignUpRounds(a + size);
    AlignUpFirst(a + size);
    WrapSmall(AlignUp(a + size) - h.start);
    var o := AllocExpanding(h, align, size);
    assert MovedUp(h, size, a, AlignUp(a + size), o.heap, o.addr);
  }

  /** Every request that does not wrap is served from exactly that block, unless inserting the fragment faults. */
  lemma {:induction false} AllocServes<Id>(h: Heap<Id>, align: bool, size: int)
    requires FreeOk(h) && Paged(h) && 0 <= size && RequestFits(h, align, size)
    ensures var o := Alloc(h, align, size); o.Done? ==> Served(h, align, size, o.heap, o.addr)
  {
    hide AllocExpanding, AllocFrom, AllocAt, BestFit, Chain, Blocks, Ordered, Positive, NotAbove;
    hide CutFrom, CutPastEnd, FirstAdmissible;
    var need := Need(align, size);
    WrapSmall(size + (if align then PAGE - 1 else 0) + HEADER);
    BestFitFits(h.tree, need);
    BestFitExact(h.tree, need);
    BestFitOfNil(h.tree, need);
    var best := BestFit(h.tree, need);
    if best.Nil? {
      ExpandingServes(h, align, size);
    } else {
      var off := AllocFromPlain(h, align, size, best);
      PlacedFirst(align, best.base, off);
      AtServes(h, align, size, best, off);
      var o := Alloc(h, align, size);
      if o.Done? { SmallestCut(h, align, size, Chain(h.tree, need), best, o.heap, o.addr); }
    }
  }

  lemma SmallestCut<Id>(h: Heap<Id>, align: bool, size: int, c: seq<Tree<Id>>, b: Tree<Id>, h': Heap<Id>, addr: int)
    requires EarliestSmallest(c, b) && CutFrom(h, align, size, b, h', addr)
    ensures CutFromSmallest(h, align, size, c, h', addr)
  {
    hide CutFrom;
    var i :| 0 <= i < |c| && c[i] == b;
  }

  lemma {:induction false} BestFitOfNil<Id>(t: Tree<Id>, size: int)
    ensures t.Nil? ==> BestFit(t, size).Nil?
  {
  }

  /** A request served from the only free block. */
  lemma {:induction false} OnlyBlockServes<Id>(h: Heap<Id>, id: Id, base: int, left: int, size: int)
    requires h.tree == Br(id, Nil, base, left, 1, Nil)
    requires 0 <= base && 0 <= size && size + HEADER <= left && base + left < WORD
    ensures RequestFits(h, false, size)
    ensures Alloc(h, false, size) ==
            Done(Stamped(h.(tree := if left == size + HEADER then Nil
                                    else Br(id, Nil, base + size + HEADER, left - size - HEADER, 1, Nil)),
                         base, size),
                 base + HEADER)
  {
    WrapSmall(size + HEADER);
    WrapSmall(base + HEADER);
    WrapSmall(base + HEADER + size);
    WrapSmall(left - HEADER - size);
    assert Need(false, size) == size + HEADER;
    assert BestFit(h.tree, size + HEADER) == h.tree;
  }

  // ---------------------------------------------------------------- exactly when a request is safe

  /** The end of a heap in bounds leaves at least a page below 2^32. */
  lemma PagedEnd<Id>(h: Heap<Id>)
    requires Bounded(h) && Paged(h)
    ensures h.end <= WORD - PAGE
  {
  }

  lemma PlacedPlain(base: int)
    ensures Placed(false, base) == base
  {
  }

  lemma PlacedOnPage(base: int)
    requires 0 <= base < WORD
    ensures Wrap(Placed(true, base) + HEADER) % PAGE == 0
    ensures 0 <= Placed(true, base) < WORD
  {
    AlignUpBelow(Wrap(base + HEADER));
  }

  /** An expansion that wraps hands out a block beyond the end it leaves behind. */
  lemma {:induction false} ExpandingWraps<Id>(h: Heap<Id>, align: bool, size: int)
    requires Bounded(h) && Paged(h) && 0 <= size && size + (if align then PAGE - 1 else 0) + HEADER < WORD
    requires h.end + (if align then PAGE else HEADER) + size + PAGE - 1 >= WORD
    ensures var o := AllocExpanding(h, align, size);
            o.Done? && (o.addr != 0 ==> o.addr + size > o.heap.end)
  {
    PagedEnd(h);
    var o := AllocExpanding(h, align, size);
    if o.addr != 0 {
      var pad := if align then PAGE - HEADER else 0;
      if align {
        if h.end == WORD - PAGE { LastPageGivesNull(h); assert false; }
        assert h.end <= WORD - 2 * PAGE by { NextPage(h.end); }
        PlacedRounds(h.end);
      }
      var s := h.end + pad + HEADER + size;
      WrapSmall(pad);
      WrapSmall(pad + HEADER + size);
      WrapSmall(h.end + pad + HEADER);
      AlignUpBelow(Wrap(s));
    }
  }

  lemma NextPage(x: int)
    requires x % PAGE == 0 && x < WORD - PAGE
    ensures x <= WORD - 2 * PAGE
  {
  }

  lemma LastPageGivesNull<Id>(h: Heap<Id>)
    requires h.end == WORD - PAGE
    ensures Wrap(Placed(true, h.end) + HEADER) == 0
  {
  }

  lemma {:induction false} OversizeExpanding<Id>(h: Heap<Id>, align: bool, size: int)
    requires Bounded(h) && Paged(h)
    requires 0 <= size < WORD && size + (if align then PAGE - 1 else 0) + HEADER >= WORD
    ensures var o := AllocExpanding(h, align, size);
            o.Done? && (o.addr != 0 ==> o.addr + size > o.heap.end)
  {
    hide AlignUp, Placed;
    PagedEnd(h);
    var addr := Placed(align, h.end);
    if align { PlacedOnPage(h.end); } else { PlacedPlain(h.end); WrapSmall(h.end + HEADER); }
    AlignUpBelow(Wrap(h.end + Wrap(Wrap(addr - h.end) + HEADER + size)));
    var o := AllocExpanding(h, align, size);
    assert align && o.addr != 0 ==> o.addr >= PAGE;
  }

  lemma {:induction false} OversizeFrom<Id>(h: Heap<Id>, align: bool, size: int, best: Tree<Id>)
    requires Bounded(h) && Paged(h) && best.Br? && h.tree.Br? && 0 <= best.base <= h.end
    requires 0 <= size < WORD && size + (if align then PAGE - 1 else 0) + HEADER >= WORD
    ensures var o := AllocFrom(h, align, size, best);
            o.Done? && o.addr != 0 ==> o.addr + size > o.heap.end
  {
    hide InsertFaults, Insert, Carved;
    PagedEnd(h);
    var o := AllocFrom(h, align, size, best);
    if o.Done? && o.addr != 0 {
      var moved := align && best.base % PAGE != PAGE - HEADER;
      if moved { PlacedOnPage(best.base); } else { WrapSmall(best.base + HEADER); }
      assert o.heap.end == h.end;
      assert align ==> o.addr >= PAGE;
    }
  }

  /** A request whose own size wraps hands out a block that reaches beyond the heap. */
  lemma {:induction false} OversizeWraps<Id>(h: Heap<Id>, live: map<int, int>, align: bool, size: int)
    requires Inv(h, live) && 0 <= size < WORD && size + (if align then PAGE - 1 else 0) + HEADER >= WORD
    ensures var o := Alloc(h, align, size);
            o.Done? && o.addr != 0 ==> o.addr + size > o.heap.end
  {
    hide AllocFrom, AllocExpanding, BestFit, Blocks, Ordered, Positive, NotAbove;
    var best := BestFit(h.tree, Need(align, size));
    BestFitFits(h.tree, Need(align, size));
    if best.Nil? || h.tree.Nil? {
      OversizeExpanding(h, align, size);
    } else {
      OversizeFrom(h, align, size, best);
    }
  }

  /** The exact condition: an allocated block lies inside the heap if and only if the request did not wrap. */
  lemma {:induction false} AllocExact<Id>(h: Heap<Id>, live: map<int, int>, align: bool, size: int)
    requires Inv(h, live) && 0 <= size < WORD
    ensures var o := Alloc(h, align, size);
            o.Done? && o.addr != 0 ==>
              (o.addr + size <= o.heap.end <==> RequestFits(h, align, size))
  {
    hide AllocExpanding, AllocFrom, BestFit, Blocks, Ordered, Positive, NotAbove;
    var o := Alloc(h, align, size);
    if o.Done? && o.addr != 0 {
      if RequestFits(h, align, size) {
        AllocSafe(h, live, align, size);
        assert LiveOne(o.heap, o.addr, live[o.addr := size][o.addr]);
      } else if size + (if align then PAGE - 1 else 0) + HEADER >= WORD {
        OversizeWraps(h, live, align, size);
      } else {
        ExpandingWraps(h, align, size);
      }
    }
  }

  // ---------------------------------------------------------------- freeing what was allocated

  /** Freeing a live pointer is never refused, gives back exactly its block, and forgets it. */
  lemma {:induction false} FreeLive<Id>(h: Heap<Id>, live: map<int, int>, p: int, nu: Id)
    requires Inv(h, live) && p in live
    ensures var o := FreePointer(h, p, nu);
            && (o.Crash? || o.Freed?)
            && (o.Freed? ==>
                  && Inv(o.heap, live - {p})
                  && Grown(Blocks(h.tree), Blocks(o.heap.tree), p - HEADER, live[p] + HEADER))
  {
    hide FreeRange, Blocks, Ordered, Positive, NotAbove;
    var base, size := p - HEADER, live[p] + HEADER;
    assert LiveOne(h, p, live[p]);
    WrapSmall(base);
    WrapSmall(size);
    NotOverlapped(h, live, p);
    FreeExact(h, base, size, nu);
    var o := FreePointer(h, p, nu);
    RangeInBounds(h, base, size, nu);
    if o.Freed? { GivenBack(h, o.heap, live, p); }
  }

  /**
    Freeing any pointer at all: nothing is freed unless the word in front of it is the magic number, and
    then the range is the one its header gives, if it lies in the heap and clear of the free blocks.
   */
  lemma {:induction false} FreePointerExact<Id>(h: Heap<Id>, ptr: int, nu: Id)
    requires FreeOk(h) && (ptr == 0 || HEADER <= ptr < WORD)
    requires var hd := HeaderAt(h, ptr - HEADER); hd.magic == 0x5AFE205E ==> 0 <= hd.size && ptr + hd.size < WORD
    ensures var o, hd := FreePointer(h, ptr, nu), HeaderAt(h, ptr - HEADER);
            if ptr == 0 then o.Ignored?
            else if hd.magic != 0x5AFE205E then o.BadMagic?
            else if ptr - HEADER < h.start || ptr + hd.size > h.end then o.Invalid?
            else if exists x :: ptr - HEADER <= x < ptr + hd.size && InFree(Blocks(h.tree), x) then o.Overlap?
            else
              && (o.Crash? || o.Freed?)
              && (o.Freed? ==>
                    && FreeOk(o.heap) && o.heap == h.(tree := o.heap.tree)
                    && Grown(Blocks(h.tree), Blocks(o.heap.tree), ptr - HEADER, hd.size + HEADER))
  {
    hide FreeRange, Blocks, Ordered, Positive, NotAbove, Overlapped, InFree;
    if ptr != 0 {
      var hd := HeaderAt(h, ptr - HEADER);
      WrapSmall(ptr - HEADER);
      if hd.magic == MAGIC {
        var base, size := ptr - HEADER, hd.size + HEADER;
        WrapSmall(size);
        WrapSmall(base + size);
        if base < h.start || base + size > h.end {
          OutOfBounds(h, base, size, nu);
        } else {
          FreeExact(h, base, size, nu);
          OverlappedMeans(Blocks(h.tree), base, size);
        }
      }
    }
  }

  lemma OutOfBounds<Id>(h: Heap<Id>, base: int, size: int, nu: Id)
    requires 0 <= base + size < WORD && (base < h.start || base + size > h.end)
    ensures FreeRange(h, base, size, nu).Invalid?
  {
    hide PathClashes, Neighbours, Merge;
    WrapSmall(base + size);
  }

  /** A range overlaps the blocks when one of its addresses is free. */
  lemma {:induction false} OverlappedMeans(m: map<int, int>, base: int, size: int)
    requires Separate(m) && size > 0
    ensures Overlapped(m, base, size) <==> exists x :: base <= x < base + size && InFree(m, x)
  {
    if Overlapped(m, base, size) {
      var k :| k in m && k < base + size && base < k + m[k];
      var x := if k < base then base else k;
      assert k <= x < k + m[k];
      assert InFree(m, x);
    }
    if exists x :: base <= x < base + size && InFree(m, x) {
      var x :| base <= x < base + size && InFree(m, x);
      var k :| k in m && k <= x < k + m[k];
    }
  }

  /** Once exactly the block of `p` has joined the free addresses, the others are still live. */
  lemma {:induction false} GivenBack<Id>(h: Heap<Id>, h': Heap<Id>, live: map<int, int>, p: int)
    requires Inv(h, live) && p in live && FreeOk(h') && h' == h.(tree := h'.tree)
    requires Grown(Blocks(h.tree), Blocks(h'.tree), p - HEADER, live[p] + HEADER)
    ensures Inv(h', live - {p})
  {
    hide Blocks, Ordered, Positive, NotAbove;
    forall q | q in live - {p} ensures LiveOne(h', q, live[q]) {
      assert LiveOne(h, q, live[q]) && LiveOne(h, p, live[p]);
      StaysClear(h, h', q, live[q], p - HEADER, live[p] + HEADER);
    }
  }

  lemma {:induction false} RangeInBounds<Id>(h: Heap<Id>, base: int, size: int, nu: Id)
    requires Bounded(h) && size > 0 && h.start <= base && base + size <= h.end
    ensures !FreeRange(h, base, size, nu).Invalid?
  {
    hide PathClashes, Neighbours, Insert, InsertFaults, Delete;
    WrapSmall(base + size);
  }

  lemma {:induction false} NotOverlapped<Id>(h: Heap<Id>, live: map<int, int>, p: int)
    requires Inv(h, live) && p in live
    ensures !Overlapped(Blocks(h.tree), p - HEADER, live[p] + HEADER)
  {
    hide Blocks, Ordered, Positive, NotAbove;
    assert LiveOne(h, p, live[p]);
  }

  /** A live block elsewhere keeps clear of the free blocks when another range joins them. */
  lemma {:induction false} StaysClear<Id>(h: Heap<Id>, h': Heap<Id>, q: int, s: int, base: int, size: int)
    requires LiveOne(h, q, s) && h' == h.(tree := h'.tree)
    requires Separate(Blocks(h'.tree)) && Grown(Blocks(h.tree), Blocks(h'.tree), base, size)
    requires q + s <= base || base + size <= q - HEADER
    ensures LiveOne(h', q, s)
  {
    hide Blocks;
    var m, m' := Blocks(h.tree), Blocks(h'.tree);
    forall b | b in m' ensures q + s <= b || b + m'[b] <= q - HEADER {
      var x := if b < q - HEADER then q - HEADER else b;
      if x < q + s {
        assert !InFree(m, x) && !InFree(m', x);
      }
    }
  }

  /** An immediate second free of the same pointer is detected and changes nothing. */
  lemma {:induction false} SecondFreeRefused<Id>(h: Heap<Id>, live: map<int, int>, p: int, nu: Id, nu': Id)
    requires Inv(h, live) && p in live && FreePointer(h, p, nu).Freed?
    ensures FreePointer(FreePointer(h, p, nu).heap, p, nu').Overlap?
  {
    hide FreeRange, Blocks, Ordered, Positive, NotAbove;
    var base, size := p - HEADER, live[p] + HEADER;
    FreeLive(h, live, p, nu);
    assert LiveOne(h, p, live[p]);
    var h' := FreePointer(h, p, nu).heap;
    WrapSmall(base);
    WrapSmall(size);
    FreeExact(h, base, size, nu);
    RangeInBounds(h, base, size, nu);
    assert InFree(Blocks(h'.tree), base);
    FreeExact(h', base, size, nu');
  }

  // ---------------------------------------------------------------- whole runs

  /** What clients may do: ask for memory, give a pointer back, or write anywhere but over a live header. */
  datatype Op<Id> =
    | Request(align: bool, size: int)
    | GiveBack(ptr: int, nu: Id)
    | Scribble(headers: map<int, Header>)

  datatype State<Id> = Stopped | Running(heap: Heap<Id>, live: map<int, int>)

  ghost predicate Allowed<Id>(s: State<Id>, op: Op<Id>) {
    s.Running? ==>
      match op
      case Request(align, size) => 0 <= size && RequestFits(s.heap, align, size)
      case GiveBack(ptr, nu) => ptr in s.live
      case Scribble(headers) =>
        forall p :: p in s.live ==> p - HEADER in headers && headers[p - HEADER] == HeaderAt(s.heap, p - HEADER)
  }

  function Step<Id>(s: State<Id>, op: Op<Id>): State<Id> {
    if s.Stopped? then Stopped
    else match op
      case Request(align, size) =>
        (match Alloc(s.heap, align, size)
         case Fault => Stopped
         case Done(h, addr) => Running(h, if addr == 0 then s.live else s.live[addr := size]))
      case GiveBack(ptr, nu) =>
        (match FreePointer(s.heap, ptr, nu)
         case Crash => Stopped
         case Freed(h) => Running(h, s.live - {ptr})
         case _ => s)
      case Scribble(headers) => s.(heap := s.heap.(headers := headers))
  }

  ghost predicate RunAllowed<Id>(s: State<Id>, ops: seq<Op<Id>>)
    decreases |ops|
  {
    ops != [] ==> Allowed(s, ops[0]) && RunAllowed(Step(s, ops[0]), ops[1..])
  }

  function Run<Id>(s: State<Id>, ops: seq<Op<Id>>): State<Id>
    decreases |ops|
  {
    if ops == [] then s else Run(Step(s, ops[0]), ops[1..])
  }

  ghost predicate Safe<Id>(s: State<Id>) {
    s.Running? ==> Inv(s.heap, s.live)
  }

  lemma {:induction false} StepSafe<Id>(s: State<Id>, op: Op<Id>)
    requires Safe(s) && Allowed(s, op)
    ensures Safe(Step(s, op))
  {
    hide Alloc, FreePointer, RequestFits, Blocks, Ordered, Positive, NotAbove;
    if s.Running? {
      match op
      case Request(align, size) => AllocSafe(s.heap, s.live, align, size);
      case GiveBack(ptr, nu) => FreeLive(s.heap, s.live, ptr, nu);
      case Scribble(headers) =>
        var h' := s.heap.(headers := headers);
        forall p | p in s.live ensures LiveOne(h', p, s.live[p]) {
          assert LiveOne(s.heap, p, s.live[p]);
        }
    }
  }

  /** The heap that initialisation builds: one free block, or none when the range is empty. */
  function Initial<Id>(start: int, end: int, max: int, nu: Id): Heap<Id> {
    var a, b := AlignUp(start), AlignUp(end);
    Heap(Insert(Nil, a, Wrap(b - a), nu), a, b, max, map[])
  }

  lemma {:induction false} InitialSafe<Id>(start: int, end: int, max: int, nu: Id)
    requires 0 <= start <= end && end + PAGE - 1 < WORD && 0 <= max < WORD
    ensures Inv(Initial(start, end, max, nu), map[])
    ensures forall x :: InFree(Blocks(Initial(start, end, max, nu).tree), x) <==> AlignUp(start) <= x < AlignUp(end)
  {
    var a, b := AlignUp(start), AlignUp(end);
    AlignUpRounds(start);
    AlignUpRounds(end);
    assert a <= b by { AlignUpMonotone(start, end); }
    WrapSmall(b - a);
    var t := Insert(Nil, a, b - a, nu);
    assert Sound(Tree<Id>.Nil) && NotAbove(Tree<Id>.Nil);
    InsertRefinesMap(Tree<Id>.Nil, a, b - a, nu);
    assert Blocks(t) == if a == b then map[] else map[a := b - a];
    if a < b { assert a in Blocks(t); }
  }

  /**
    Over every run from a safe state, as long as no insertion has followed a missing pointer:
    allocated blocks with their headers and free blocks are pairwise disjoint and inside the heap,
    and free blocks are non-empty and never touch.
   */
  lemma {:induction false} RunSafe<Id>(s: State<Id>, ops: seq<Op<Id>>)
    requires Safe(s) && RunAllowed(s, ops)
    ensures Safe(Run(s, ops))
    decreases |ops|
  {
    if ops != [] {
      StepSafe(s, ops[0]);
      RunSafe(Step(s, ops[0]), ops[1..]);
    }
  }

  /** The same from initialisation: every run over a fresh heap is safe. */
  lemma {:induction false} HeapRuns<Id>(start: int, end: int, max: int, nu: Id, ops: seq<Op<Id>>)
    requires 0 <= start <= end && end + PAGE - 1 < WORD && 0 <= max < WORD
    ensures var s := Running(Initial(start, end, max, nu), map[]);
            RunAllowed(s, ops) ==> Safe(Run(s, ops))
  {
    var s := Running(Initial(start, end, max, nu), map[]);
    if RunAllowed(s, ops) {
      InitialSafe(start, end, max, nu);
      RunSafe(s, ops);
    }
  }

  // ---------------------------------------------------------------- the kernel's own heap

  /** Start plus maximum size wraps below the start, so the kernel heap never expands: it answers null. */
  lemma {:induction false} KernelHeapNeverGrows<Id>(h: Heap<Id>, live: map<int, int>, align: bool, size: int)
    requires Inv(h, live) && h.start == KHEAP_START && h.max == KHEAP_MAX && 0 <= size && RequestFits(h, align, size)
    requires BestFit(h.tree, Need(align, size)).Nil?
    ensures Alloc(h, align, size) == Done(h, 0)
  {
    hide Blocks, Ordered, Positive, NotAbove, BestFit;
    ExpandingShape(h, align, size);
    var addr := Placed(align, h.end);
    if align { PlacedRounds(h.end); }
    var grow := addr - h.end + HEADER + size;
    WrapSmall(addr - h.end);
    WrapSmall(grow);
    WrapSmall(h.end + grow);
    AlignUpRounds(h.end + grow);
  }

  /**
    Unless the request itself wraps past 2^32: then the check passes, the recorded end of the heap
    drops far below its start, and an address beyond the old end is handed out.
   */
  lemma {:induction false} KernelHeapWraps<Id>(h: Heap<Id>)
    requires h.start == KHEAP_START && h.end == KHEAP_START + KHEAP_INITIAL && h.max == KHEAP_MAX
    requires BestFit(h.tree, Need(false, 0x5000_0000)).Nil?
    ensures var o := Alloc(h, false, 0x5000_0000);
            o.Done? && o.addr == 0xC010_0008 && o.heap.end == 0x1010_1000
  {
    hide BestFit;
  }
}
