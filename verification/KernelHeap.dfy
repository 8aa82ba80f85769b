/**
  The kernel's own heap over whole runs. Here every free that adds a node to the tree draws the
  node's storage from the same heap, and nothing ever gives that storage back. What such a free leaves is
  given in every case; when it is the right heap is stated exactly, on the heap before it.
 */
module KernelHeap {
  import opened Machine
  import opened AvlTree
  import opened AvlNodes
  import opened FreeBlocks
  import opened FaultPath
  import opened HeapModel
  import opened HeapArea
  import opened Unwinding
  import opened Drawing
  import opened NodeStorage
  import HeapFault

  const NODE := 20   // bytes of a tree node

  // ---------------------------------------------------------------- one free

  /**
    `Unchanged` is a refused free and `Released` one that leaves the right heap, with that heap and where
    the node's storage is. `NoStorage`: no block can give the storage, and the node is written through a
    null pointer. `Faulted`: a rotation follows a null pointer. `Knotted`: the nodes no longer form a tree, if
    the insertion comes to its end at all. `Spoilt`: they form a tree, but one that is out of order or does
    not hold the blocks it should.
   */
  datatype Outcome<Id> =
    | Unchanged
    | NoStorage
    | Faulted
    | Knotted
    | Spoilt(heap: Heap<Id>, node: int)
    | Released(heap: Heap<Id>, node: int)

  /** The tree and the range that are left to be inserted once both neighbours are out. */
  function Opened<Id>(h: Heap<Id>, base: int, size: int): (Tree<Id>, int, int) {
    var (l, r) := Neighbours(h.tree, base, size, Nil, Nil);
    (Cut(Cut(h.tree, l), r), if l.Br? then l.base else base, size + SizeOf(l) + SizeOf(r))
  }

  /** The heap is in order and its blocks are those of `t` less the storage taken from `b`, plus the range. */
  ghost predicate Right<Id>(h: Heap<Id>, t: Tree<Id>, b: Tree<Id>, from: int, total: int)
    requires b.Br?
  {
    FreeOk(h) && b.base in Blocks(t) && Blocks(h.tree) == Shaved(Blocks(t), b.base, DRAW)[from := total]
  }

  /** The insertion of the range into the tree it draws from. */
  ghost function PutBack<Id>(h: Heap<Id>, t: Tree<Id>, from: int, total: int, nu: Id): Outcome<Id> {
    var b := BestFit(t, DRAW);
    if b.Nil? then NoStorage
    else
      var u := Resumed(t, b, from);
      if !Distinct(u) then Knotted
      else if AlongFaults(t, u, from, total, nu) then Faulted
      else
        var h' := Stamped(h.(tree := Along(t, u, from, total, nu)), b.base, NODE);
        if Right(h', t, b, from, total) then Released(h', b.base + HEADER) else Spoilt(h', b.base + HEADER)
  }

  ghost function FreeDrawing<Id>(h: Heap<Id>, base: int, size: int, nu: Id): Outcome<Id> {
    if size == 0 || base < h.start || Wrap(base + size) > h.end || PathClashes(h.tree, base, size) then Unchanged
    else
      var (t, from, total) := Opened(h, base, size);
      PutBack(h, t, from, total, nu)
  }

  ghost function FreePointerDrawing<Id>(h: Heap<Id>, ptr: int, nu: Id): Outcome<Id> {
    if ptr == 0 || HeaderAt(h, Wrap(ptr - HEADER)).magic != MAGIC then Unchanged
    else FreeDrawing(h, Wrap(ptr - HEADER), Wrap(HeaderAt(h, Wrap(ptr - HEADER)).size + HEADER), nu)
  }

  // ---------------------------------------------------------------- what it does

  /** What is left in the tree lies clear of the range that will be inserted. */
  lemma {:induction false} OpenedTree<Id>(h: Heap<Id>, base: int, size: int)
    requires FreeOk(h) && size > 0 && h.start <= base && base + size <= h.end && !PathClashes(h.tree, base, size)
    ensures var (t, from, total) := Opened(h, base, size);
            && Sound(t) && NotAbove(t) && Tidy(Blocks(t), h.start, h.end)
            && total > 0 && !Overlapped(Blocks(t), from, total)
            && Ids(t) <= Ids(h.tree) && (Distinct(h.tree) ==> Distinct(t))
  {
    hide Insert, Blocks, Ordered, Positive, NotAbove, PathClashes, Neighbours, Delete;
    var m := Blocks(h.tree);
    SeparateIsDisjoint(m);
    PathDetectsOverlap(h.tree, base, size);
    PathFindsNeighbours(h.tree, base, size);
    var (l, r) := Neighbours(h.tree, base, size, Nil, Nil);
    CutRefines(h.tree, l);
    CutRefines(Cut(h.tree, l), r);
    CutIds(h.tree, l);
    CutIds(Cut(h.tree, l), r);
    MergedBaseIsNew(m, base, size, l, r);
    RestClear(m, h.start, h.end, base, size, l, r);
  }

  lemma CutIds<Id>(t: Tree<Id>, n: Tree<Id>)
    ensures Ids(Cut(t, n)) <= Ids(t) && (Distinct(t) ==> Distinct(Cut(t, n)))
  {
    if n.Br? { DeleteIds(t, n.base); }
  }

  /** Inserting that range into what is left frees exactly what was to be freed. */
  lemma {:induction false} OpenedFacts<Id>(h: Heap<Id>, base: int, size: int, nu: Id)
    requires FreeOk(h) && size > 0 && h.start <= base && base + size <= h.end && !PathClashes(h.tree, base, size)
    ensures var (t, from, total) := Opened(h, base, size);
            && FreeOk(h.(tree := Insert(t, from, total, nu)))
            && Blocks(Insert(t, from, total, nu)) == Blocks(t)[from := total]
            && Grown(Blocks(h.tree), Blocks(Insert(t, from, total, nu)), base, size)
  {
    hide Insert, Blocks, Ordered, Positive, NotAbove, PathClashes, Neighbours, Delete;
    SeparateIsDisjoint(Blocks(h.tree));
    PathDetectsOverlap(h.tree, base, size);
    PathFindsNeighbours(h.tree, base, size);
    var (l, r) := Neighbours(h.tree, base, size, Nil, Nil);
    CutRefines(h.tree, l);
    CutRefines(Cut(h.tree, l), r);
    MergedHeap(h, base, size, l, r, nu);
  }

  lemma {:induction false} RestClear<Id>(m: map<int, int>, lo: int, hi: int, base: int, size: int, l: Tree<Id>,
                                         r: Tree<Id>)
    requires Tidy(m, lo, hi) && size > 0 && !Overlapped(m, base, size) && AreNeighbours(m, base, size, l, r)
    ensures var rest := Without(Without(m, l), r);
            Tidy(rest, lo, hi) && !Overlapped(rest, if l.Br? then l.base else base, size + SizeOf(l) + SizeOf(r))
  {
    var rest := Without(Without(m, l), r);
    var from := base - SizeOf(l);
    assert from == if l.Br? then l.base else base;
    MergedBaseIsNew(m, base, size, l, r);
    forall k | k in rest ensures !(k < base + size + SizeOf(r) && from < k + rest[k]) {
      MergedParts(m, base, size, l, r, k);
      assert k in Merged(m, base, size, l, r) && k != from;
    }
  }

  /** Drawing from the opened tree and inserting is shaving the merged heap. */
  lemma DrawIsShave(m: map<int, int>, b: int, from: int, total: int)
    requires b in m && m[b] >= DRAW && from != b && (m[b] > DRAW ==> from != b + DRAW)
    ensures Shaved(m, b, DRAW)[from := total] == Shaved(m[from := total], b, DRAW)
  {
  }

  /** A block that the search finds is large enough. */
  lemma {:induction false} FoundServes<Id>(t: Tree<Id>)
    requires Ordered(t) && BestFit(t, DRAW).Br?
    ensures Serves(t, BestFit(t, DRAW))
  {
    BestFitFits(t, DRAW);
  }

  /** Freeing a live block is never refused: its own range is opened and put back. */
  lemma {:induction false} FreeAccepted<Id>(h: Heap<Id>, live: map<int, int>, p: int, nu: Id)
    requires Inv(h, live) && p in live
    ensures FreeOk(h) && live[p] >= 0 && h.start <= p - HEADER && p + live[p] <= h.end < WORD
    ensures !PathClashes(h.tree, p - HEADER, live[p] + HEADER)
    ensures FreePointerDrawing(h, p, nu) == FreeDrawing(h, p - HEADER, live[p] + HEADER, nu)
    ensures var (t, from, total) := Opened(h, p - HEADER, live[p] + HEADER);
            FreeDrawing(h, p - HEADER, live[p] + HEADER, nu) == PutBack(h, t, from, total, nu)
  {
    hide Blocks, Ordered, Positive, NotAbove, PathClashes, Opened, PutBack;
    var base, size := p - HEADER, live[p] + HEADER;
    assert LiveOne(h, p, live[p]);
    WrapSmall(base);
    WrapSmall(size);
    WrapSmall(base + size);
    NotOverlapped(h, live, p);
    SeparateIsDisjoint(Blocks(h.tree));
    PathDetectsOverlap(h.tree, base, size);
  }

  /**
    Freeing a live block on the kernel's heap is never refused. When it completes, exactly the block
    has become free, except for the node's storage, which is a new live block; everything else
    that was live still is.
   */
  lemma {:induction false} FreeDrawingSafe<Id>(h: Heap<Id>, live: map<int, int>, p: int, nu: Id)
    requires Inv(h, live) && p in live
    ensures var o := FreePointerDrawing(h, p, nu);
            && !o.Unchanged?
            && o == FreeDrawing(h, p - HEADER, live[p] + HEADER, nu)
            && !PathClashes(h.tree, p - HEADER, live[p] + HEADER)
            && (o.Released? ==>
                  && o.node !in live - {p} && Inv(o.heap, (live - {p})[o.node := NODE])
                  && forall x :: InFree(Blocks(o.heap.tree), x) <==>
                       (InFree(Blocks(h.tree), x) || p - HEADER <= x < p + live[p])
                       && !(o.node - HEADER <= x < o.node + NODE))
  {
    hide Blocks, Ordered, Positive, NotAbove, PathClashes, Opened, BestFit, Insert, Along, AlongFaults, Resumed;
    hide Distinct, FreePointerDrawing, FreeDrawing;
    var base, size := p - HEADER, live[p] + HEADER;
    FreeAccepted(h, live, p, nu);
    var (t, from, total) := Opened(h, base, size);
    var b := BestFit(t, DRAW);
    OpenedTree(h, base, size);
    OpenedFacts(h, base, size, nu);
    if b.Br? {
      FoundServes(t);
      var h' := Stamped(h.(tree := Along(t, Resumed(t, b, from), from, total, nu)), b.base, NODE);
      if Right(h', t, b, from, total) { DrawnHeap(h, live, p, t, b, from, total, nu, h'.tree); }
    }
  }

  lemma {:induction false} DrawnHeap<Id>(h: Heap<Id>, live: map<int, int>, p: int, t: Tree<Id>, b: Tree<Id>,
                                         from: int, total: int, nu: Id, w: Tree<Id>)
    requires Inv(h, live) && p in live && Serves(t, b)
    requires Sound(t) && NotAbove(t) && Tidy(Blocks(t), h.start, h.end) && total > 0
    requires !Overlapped(Blocks(t), from, total)
    requires FreeOk(h.(tree := Insert(t, from, total, nu)))
    requires Blocks(Insert(t, from, total, nu)) == Blocks(t)[from := total]
    requires Grown(Blocks(h.tree), Blocks(Insert(t, from, total, nu)), p - HEADER, live[p] + HEADER)
    requires Right(Stamped(h.(tree := w), b.base, NODE), t, b, from, total)
    ensures var h' := Stamped(h.(tree := w), b.base, NODE);
            && b.base + HEADER !in live - {p}
            && Inv(h', (live - {p})[b.base + HEADER := NODE])
            && forall x :: InFree(Blocks(h'.tree), x) <==>
                 (InFree(Blocks(h.tree), x) || p - HEADER <= x < p + live[p]) && !(b.base <= x < b.base + DRAW)
  {
    hide Blocks, Ordered, Positive, NotAbove, BestFit, Insert, Overlapped, Shaved;
    var merged := h.(tree := Insert(t, from, total, nu));
    GivenBack(h, merged, live, p);
    BestFitFits(t, DRAW);
    ShavedClear(Blocks(t), h.start, h.end, b.base, from, total);
    DrawIsShave(Blocks(t), b.base, from, total);
    CarvedSafe(merged, live - {p}, w, b.base, DRAW, b.base + HEADER, NODE);
  }

  // ---------------------------------------------------------------- exactly when a free completes

  /**
    What a caller can see before the call, once both neighbours are thought away: the right spine has
    a block of 28 bytes; the nodes of the search path, strung together again, read like the drawn tree and
    turn as they did; and no node on the path tips.
   */
  ghost predicate FreeCompletes<Id>(h: Heap<Id>, base: int, size: int, nu: Id) {
    var (t, from, total) := Opened(h, base, size);
    var b := BestFit(t, DRAW);
    && !AllBelow(RightSpine(t), DRAW)
    && (b.Br? ==> Traceable(t, b, from) && !PathTips(Resumed(t, b, from), from, total, nu))
  }

  /**
    The exact condition: a free in bounds that is not refused leaves the right heap if and only if it looks
    as above.
   */
  lemma {:induction false} FreeCompletesExactly<Id>(h: Heap<Id>, base: int, size: int, nu: Id)
    requires FreeOk(h) && Distinct(h.tree)
    requires size > 0 && h.start <= base && base + size <= h.end && !PathClashes(h.tree, base, size)
    ensures FreeDrawing(h, base, size, nu).Released? <==> FreeCompletes(h, base, size, nu)
  {
    hide Blocks, Ordered, Positive, NotAbove, PathClashes, Opened, BestFit, Insert, InsertFaults, Overlapped;
    hide PathTips, Traceable, Along, AlongFaults, Resumed, Distinct, Shaved, Tidy;
    WrapSmall(base + size);
    var (t, from, total) := Opened(h, base, size);
    var b := BestFit(t, DRAW);
    OpenedTree(h, base, size);
    BestFitExact(t, DRAW);
    if b.Br? {
      FoundServes(t);
      OpenedFacts(h, base, size, nu);
      PutBackExactly(h, t, b, from, total, nu);
    }
  }

  lemma {:induction false} PutBackExactly<Id>(h: Heap<Id>, t: Tree<Id>, b: Tree<Id>, from: int, total: int, nu: Id)
    requires Bounded(h) && Sound(t) && NotAbove(t) && Distinct(t) && Tidy(Blocks(t), h.start, h.end) && Serves(t, b)
    requires total > 0 && !Overlapped(Blocks(t), from, total) && Tidy(Blocks(t)[from := total], h.start, h.end)
    ensures PutBack(h, t, from, total, nu).Released? <==>
              Traceable(t, b, from) && !PathTips(Resumed(t, b, from), from, total, nu)
  {
    hide Blocks, Ordered, Positive, NotAbove, BestFit, Insert, InsertFaults, Overlapped;
    hide PathTips, Traceable, Along, AlongFaults, Resumed, Distinct, Shaved, Tidy;
    DrawingExact(t, b, h.start, h.end, from, total, nu);
    DrawnRefines(t, b, h.start, h.end);
    if Traceable(t, b, from) {
      TraceableSearches(t, b, h.start, h.end, from, total, nu);
      DrawingInsertExact(t, b, h.start, h.end, from, total, nu);
      ShavedClear(Blocks(t), h.start, h.end, b.base, from, total);
      DrawIsShave(Blocks(t), b.base, from, total);
      ShavedTidy(Blocks(t)[from := total], h.start, h.end, b.base, DRAW);
      FaultsExactly(Resumed(t, b, from), from, total, nu);
    }
  }

  /** A spoilt tree is out of order, or its blocks are not the old ones less the storage plus the range. */
  lemma {:induction false} SpoiltIsBroken<Id>(h: Heap<Id>, base: int, size: int, nu: Id)
    requires FreeOk(h) && Distinct(h.tree)
    requires size > 0 && h.start <= base && base + size <= h.end && FreeDrawing(h, base, size, nu).Spoilt?
    ensures var (t, from, total) := Opened(h, base, size);
            var b, w := BestFit(t, DRAW), FreeDrawing(h, base, size, nu).heap.tree;
            && b.Br? && b.base in Blocks(t)
            && (!Ordered(w) || Blocks(w) != Shaved(Blocks(t), b.base, DRAW)[from := total])
  {
    hide Blocks, Ordered, Positive, NotAbove, PathClashes, Opened, BestFit, Insert, InsertFaults, Overlapped;
    hide PathTips, Traceable, Along, AlongFaults, Resumed, Distinct, Shaved, Tidy;
    WrapSmall(base + size);
    var (t, from, total) := Opened(h, base, size);
    var b := BestFit(t, DRAW);
    OpenedTree(h, base, size);
    FoundServes(t);
    OpenedFacts(h, base, size, nu);
    PutBackExactly(h, t, b, from, total, nu);
    DrawingExact(t, b, h.start, h.end, from, total, nu);
    if Traceable(t, b, from) {
      TraceableSearches(t, b, h.start, h.end, from, total, nu);
      FaultsExactly(Resumed(t, b, from), from, total, nu);
    }
  }

  lemma InBounds<Id>(h: Heap<Id>, base: int, size: int)
    requires FreeOk(h) && size > 0 && h.start <= base && base + size <= h.end
    ensures Bounded(h) && Sound(h.tree) && 0 <= base && base + size < WORD
  {
  }

  lemma PutBackTree<Id>(h: Heap<Id>, t: Tree<Id>, from: int, total: int, nu: Id)
    ensures var b, o := BestFit(t, DRAW), PutBack(h, t, from, total, nu);
            o.Spoilt? ==> b.Br? && o.heap.tree == Along(t, Resumed(t, b, from), from, total, nu)
  {
    hide BestFit, Resumed, Along, AlongFaults, Distinct, Right;
  }

  /**
    A node used up on the way to the new block and linked again is a block of no bytes; one with two
    children whose successor is on the way as well leaves the successor's block in the tree twice.
   */
  lemma {:induction false} UsedUpIsBroken<Id>(h: Heap<Id>, base: int, size: int, nu: Id)
    requires FreeOk(h) && Distinct(h.tree)
    requires size > 0 && h.start <= base && base + size <= h.end && !PathClashes(h.tree, base, size)
    requires var (t, from, total) := Opened(h, base, size);
             var b := BestFit(t, DRAW);
             && b.Br? && b.size == DRAW && OnPath(t, from, b)
             && (b.left.Br? && b.right.Br? ==> OnPath(t, from, Leftmost(b.right)))
    ensures var (t, from, total) := Opened(h, base, size);
            var b, o := BestFit(t, DRAW), FreeDrawing(h, base, size, nu);
            && !o.Released?
            && (o.Spoilt? ==>
                  if b.left.Nil? || b.right.Nil? then (b.base + DRAW, 0) in Row(o.heap.tree)
                  else var m := Leftmost(b.right); multiset(Row(o.heap.tree))[(m.base, m.size)] >= 2)
  {
    hide Blocks, Ordered, Positive, NotAbove, PathClashes, Opened, BestFit, Insert, InsertFaults, Overlapped, Row;
    hide PathTips, Traceable, Along, AlongFaults, Distinct, Resumed, Tidy, PutBack, Leftmost, OnPath;
    InBounds(h, base, size);
    WrapSmall(base + size);
    var (t, from, total) := Opened(h, base, size);
    var b := BestFit(t, DRAW);
    OpenedTree(h, base, size);
    OpenedFacts(h, base, size, nu);
    FoundServes(t);
    PutBackExactly(h, t, b, from, total, nu);
    PutBackTree(h, t, from, total, nu);
    UsedUpFinishes(t, b, h.start, h.end, from, total, nu);
  }

  /** An allocation completes exactly when inserting the fragment in front of an aligned block does not fault. */
  ghost predicate RequestCompletes<Id>(h: Heap<Id>, align: bool, size: int) {
    var best := BestFit(h.tree, Need(align, size));
    best.Br? && h.tree.Br? && align && best.base % PAGE != PAGE - HEADER ==>
      var off := Wrap(Placed(true, best.base) - best.base);
      off > HEADER ==> !PathTips(h.tree, best.base, off, h.tree.id)
  }

  lemma {:induction false} RequestCompletesExactly<Id>(h: Heap<Id>, align: bool, size: int)
    requires FreeOk(h)
    ensures Alloc(h, align, size).Done? <==> RequestCompletes(h, align, size)
  {
    hide Blocks, BestFit, Placed, Wrap, Insert, InsertFaults, Carved, PathTips, Need, AllocExpanding;
    var best := BestFit(h.tree, Need(align, size));
    ExpandingCompletes(h, align, size);
    if best.Br? {
      var off := Wrap(Placed(true, best.base) - best.base);
      if off > HEADER && h.tree.Br? { FaultsExactly(h.tree, best.base, off, h.tree.id); }
    }
  }

  lemma ExpandingCompletes<Id>(h: Heap<Id>, align: bool, size: int)
    ensures AllocExpanding(h, align, size).Done?
  {
  }

  // ---------------------------------------------------------------- on linked nodes

  /** Inserts a range into the heap's own tree, drawing the node from it. */
  method PutDrawing(a: HeapArea, from: int, total: int, ghost lo: int, ghost hi: int) returns (done: bool,
                    ghost nu: Node?)
    requires Holds(a.root, a.tree) && Sound(a.tree) && NotAbove(a.tree) && Tidy(Blocks(a.tree), lo, hi)
    requires total > 0 && !Overlapped(Blocks(a.tree), from, total)
    modifies a`root, a`tree, a`headers, Ids(a.tree)
    ensures nu == null ==> !done && forall n: Node :: PutBack(old(a.State()), old(a.tree), from, total, n).NoStorage?
    ensures nu != null ==>
              var o := PutBack<Node>(old(a.State()), old(a.tree), from, total, nu);
              if done then
                || ((o.Released? || o.Spoilt?) && Holds(a.root, a.tree) && o.heap == a.State())
                || (o.Knotted? && forall r: Tree<Node> :: allocated(r) && Distinct(r) ==> !Laid(a.root, r))
              else o.Faulted? || o.Knotted?
  {
    hide Along, AlongFaults, Resumed, Blocks, Ordered, Positive, NotAbove, BestFit, Overlapped, Right, Distinct;
    ghost var t, b := a.tree, BestFit(a.tree, DRAW);
    var best := FindBestFit(a.root, DRAW, a.tree);
    if best == null {
      return false, null;
    }
    FoundServes(t);
    var addr := best.base;
    assert allocated(Ids(t));
    var m, fault;
    m, fault, nu := InsertIntoOwnTree(a.root, from, total, t, b, lo, hi);
    if fault {
      return false, nu;
    }
    ghost var W: set<Node>, w := Ids(t) + {nu}, Along<Node>(t, Resumed(t, b, from), from, total, nu);
    assert allocated(W) && allocated(Ids(w));
    label Inserted:
    a.root, a.tree := m, w;
    a.headers := a.headers[addr := Header(MAGIC, NODE)];
    if !Distinct(Resumed(t, b, from)) {
      forall r: Tree<Node> | allocated(r) && Distinct(r) ensures !Laid(a.root, r) {
        if Laid(m, r) {
          LaidWithin(m, r, W);
          Older@Inserted(r, W);
          assert !old@Inserted(Laid(m, r));
        }
      }
    } else {
      assert Holds(a.root, a.tree);
    }
    done := true;
  }

  /**
    The same on linked nodes: the free runs on the heap's own tree, whose storage it draws from, and leaves
    exactly what `FreeDrawing` says: the right heap, a spoilt one, or nodes that are no longer a tree.
   */
  method FreeOnOwnHeap(a: HeapArea, base: int, size: int) returns (code: FreeCode, ghost nu: Node?)
    requires a.Valid() && 0 <= base && 0 <= size && base + size < WORD
    modifies a`root, a`tree, a`headers, Ids(a.tree)
    ensures code.Refused? || code.Clashed? ==>
              && a.State() == old(a.State()) && a.Valid()
              && forall n: Node :: FreeDrawing(old(a.State()), base, size, n).Unchanged?
    ensures code.Returned? ==>
              && nu != null
              && var o := FreeDrawing<Node>(old(a.State()), base, size, nu);
              && (o.Released? ==> a.Valid())
              && (|| ((o.Released? || o.Spoilt?) && Holds(a.root, a.tree) && o.heap == a.State())
                  || (o.Knotted? && forall r: Tree<Node> :: allocated(r) && Distinct(r) ==> !Laid(a.root, r)))
    ensures code.Broke? ==>
              if nu == null then forall n: Node :: FreeDrawing(old(a.State()), base, size, n).NoStorage?
              else var o := FreeDrawing<Node>(old(a.State()), base, size, nu); o.Faulted? || o.Knotted?
  {
    hide Along, AlongFaults, Resumed, Delete, Blocks, Ordered, Positive, NotAbove, PathClashes, Distinct;
    hide Neighbours, BestFit, Overlapped, PutBack;
    nu := null;
    assert allocated(Ids(a.tree));
    ghost var h := a.State();
    WrapSmall(base + size);
    if size == 0 || base < a.startAddr || base + size > a.endAddr {
      return Refused, null;
    }
    var clash := FindClash(a.root, base, size, a.tree);
    if clash {
      return Clashed, null;
    }
    var from, total := a.Detach(base, size);
    ghost var t := a.tree;
    assert (t, from, total) == Opened(h, base, size);
    OpenedTree(h, base, size);
    ghost var apart := a.State();
    var done;
    done, nu := PutDrawing(a, from, total, h.start, h.end);
    forall n: Node ensures FreeDrawing(h, base, size, n) == PutBack(apart, t, from, total, n) {
      FreeIsPutBack(h, apart, base, size, n);
    }
    if !done {
      return Broke, nu;
    }
    ReleasedOk<Node>(h, base, size, nu);
    code := Returned;
  }

  /** Once the neighbours are out, what is left of a free is to put the range back. */
  lemma FreeIsPutBack<Id>(h: Heap<Id>, h': Heap<Id>, base: int, size: int, nu: Id)
    requires h' == h.(tree := h'.tree)
    requires size != 0 && base >= h.start && Wrap(base + size) <= h.end && !PathClashes(h.tree, base, size)
    ensures var (t, from, total) := Opened(h, base, size);
            FreeDrawing(h, base, size, nu) == PutBack(h', t, from, total, nu)
  {
    hide Along, AlongFaults, Resumed, PathClashes, Opened, BestFit;
  }

  /** A free leaves the bounds of the heap alone. */
  lemma {:induction false} ReleasedOk<Id>(h: Heap<Id>, base: int, size: int, nu: Id)
    requires Paged(h)
    ensures var o := FreeDrawing(h, base, size, nu); o.Released? ==> FreeOk(o.heap) && Paged(o.heap)
  {
    hide Along, AlongFaults, Resumed, PathClashes, Opened, BestFit, FreeOk;
  }

  // ---------------------------------------------------------------- whole runs

  /**
    `live` maps all pointers handed out to their sizes; `nodes` are those that hold tree nodes. `Down`
    says what went wrong.
   */
  datatype KernelState<Id> = Down(why: Outcome<Id>) | Up(heap: Heap<Id>, live: map<int, int>, nodes: set<int>)

  /** As for any heap; clients give back only what is theirs, and a new node is none of those in the tree. */
  ghost predicate ClientMay<Id>(s: KernelState<Id>, op: Op<Id>) {
    s.Up? ==>
      && Allowed(Running(s.heap, s.live), op)
      && (op.GiveBack? ==> op.ptr !in s.nodes && op.nu !in Ids(s.heap.tree))
  }

  ghost function KernelStep<Id>(s: KernelState<Id>, op: Op<Id>): KernelState<Id> {
    if s.Down? then s
    else match op
      case Request(align, size) =>
        (match Alloc(s.heap, align, size)
         case Fault => Down(Faulted)
         case Done(h, addr) => Up(h, if addr == 0 then s.live else s.live[addr := size], s.nodes))
      case GiveBack(ptr, nu) =>
        (match FreePointerDrawing(s.heap, ptr, nu)
         case Unchanged => s
         case Released(h, node) => Up(h, (s.live - {ptr})[node := NODE], s.nodes + {node})
         case other => Down(other))
      case Scribble(headers) => s.(heap := s.heap.(headers := headers))
  }

  ghost predicate KernelMay<Id>(s: KernelState<Id>, ops: seq<Op<Id>>)
    decreases |ops|
  {
    ops != [] ==> ClientMay(s, ops[0]) && KernelMay(KernelStep(s, ops[0]), ops[1..])
  }

  ghost function KernelRun<Id>(s: KernelState<Id>, ops: seq<Op<Id>>): KernelState<Id>
    decreases |ops|
  {
    if ops == [] then s else KernelRun(KernelStep(s, ops[0]), ops[1..])
  }

  /** The heap invariant, with the storage of every tree node among the live blocks. */
  ghost predicate KernelSafe<Id>(s: KernelState<Id>) {
    s.Up? ==>
      && Inv(s.heap, s.live) && Distinct(s.heap.tree)
      && forall p :: p in s.nodes ==> p in s.live && s.live[p] == NODE
  }

  lemma {:induction false} GiveBackSafe<Id>(s: KernelState<Id>, ptr: int, nu: Id)
    requires KernelSafe(s) && s.Up? && ClientMay(s, GiveBack(ptr, nu))
    ensures KernelSafe(KernelStep(s, GiveBack(ptr, nu)))
    ensures KernelStep(s, GiveBack(ptr, nu)).Up? ==> s.nodes <= KernelStep(s, GiveBack(ptr, nu)).nodes
  {
    hide FreePointerDrawing, FreeDrawing, Blocks, Ordered, Positive, NotAbove, Distinct, Inv;
    assert Inv(s.heap, s.live);
    FreeDrawingSafe(s.heap, s.live, ptr, nu);
    LiveBounds(s.heap, s.live, ptr);
    ReleasedDistinct(s.heap, ptr - HEADER, s.live[ptr] + HEADER, nu);
  }

  lemma LiveBounds<Id>(h: Heap<Id>, live: map<int, int>, p: int)
    requires Inv(h, live) && p in live
    ensures FreeOk(h) && live[p] >= 0 && h.start <= p - HEADER && p + live[p] <= h.end
    ensures HeaderAt(h, p - HEADER) == Header(MAGIC, live[p])
  {
    assert LiveOne(h, p, live[p]);
  }

  lemma {:induction false} KernelStepSafe<Id>(s: KernelState<Id>, op: Op<Id>)
    requires KernelSafe(s) && ClientMay(s, op)
    ensures KernelSafe(KernelStep(s, op))
    ensures s.Up? && KernelStep(s, op).Up? ==> s.nodes <= KernelStep(s, op).nodes
  {
    hide Alloc, FreePointerDrawing, RequestFits, Blocks, Ordered, Positive, NotAbove;
    if s.Up? {
      StepSafe(Running(s.heap, s.live), op);
      match op
      case Request(align, size) =>
        AllocSafe(s.heap, s.live, align, size);
        AllocDistinct(s.heap, align, size);
      case GiveBack(ptr, nu) => GiveBackSafe(s, ptr, nu);
      case Scribble(headers) =>
    }
  }

  lemma {:induction false} AllocDistinct<Id>(h: Heap<Id>, align: bool, size: int)
    requires Sound(h.tree) && Distinct(h.tree)
    ensures var o := Alloc(h, align, size); o.Done? ==> Distinct(o.heap.tree)
  {
    hide BestFit, Need, Placed, Wrap, Insert, InsertFaults, Carve, Delete, Blocks, Ordered, Positive, Distinct;
    var best := BestFit(h.tree, Need(align, size));
    BestFitFits(h.tree, Need(align, size));
    if best.Br? && h.tree.Br? {
      var moved := align && best.base % PAGE != PAGE - HEADER;
      var addr := if moved then Placed(true, best.base) else best.base;
      var off := Wrap(addr - best.base);
      InsertIds(h.tree, best.base, off, h.tree.id);
      var t1 := if moved && off > HEADER then Insert(h.tree, best.base, off, h.tree.id) else h.tree;
      var base, left := Wrap(addr + HEADER + size), Wrap(best.size - (off + HEADER + size));
      CarveKeepsIds(t1, best.base, base, left);
      DeleteIds(Carve(t1, best.base, base, left), base);
    }
  }

  lemma {:induction false} ReleasedDistinct<Id>(h: Heap<Id>, base: int, size: int, nu: Id)
    requires FreeOk(h) && Distinct(h.tree) && nu !in Ids(h.tree)
    requires size > 0 && h.start <= base && base + size <= h.end && !PathClashes(h.tree, base, size)
    ensures var o := FreeDrawing(h, base, size, nu); o.Released? ==> Distinct(o.heap.tree)
  {
    hide Blocks, Ordered, Positive, NotAbove, PathClashes, Opened, BestFit, Insert, Overlapped;
    hide Along, AlongFaults, Resumed, Distinct, Tidy, Replaceable;
    WrapSmall(base + size);
    var (t, from, total) := Opened(h, base, size);
    var b := BestFit(t, DRAW);
    OpenedTree(h, base, size);
    if b.Br? {
      FoundServes(t);
      DrawnRefines(t, b, h.start, h.end);
      ResumedShape(t, b, from);
      AlongIds(t, Resumed(t, b, from), from, total, nu);
    }
  }

  /**
    As long as every call completes: blocks handed out, the storage of all tree nodes ever created,
    and free blocks are pairwise disjoint and inside the heap; free blocks are non-empty and never
    touch; and no node's storage is ever given out again.
   */
  lemma {:induction false} KernelRunSafe<Id>(s: KernelState<Id>, ops: seq<Op<Id>>)
    requires KernelSafe(s) && KernelMay(s, ops)
    ensures KernelSafe(KernelRun(s, ops))
    ensures s.Up? && KernelRun(s, ops).Up? ==> s.nodes <= KernelRun(s, ops).nodes
    decreases |ops|
  {
    hide KernelSafe, ClientMay, KernelStep;
    if ops != [] {
      KernelStepSafe(s, ops[0]);
      KernelRunSafe(KernelStep(s, ops[0]), ops[1..]);
      if KernelStep(s, ops[0]).Down? { DownStays(KernelStep(s, ops[0]), ops[1..]); }
    }
  }

  lemma {:induction false} DownStays<Id>(s: KernelState<Id>, ops: seq<Op<Id>>)
    requires s.Down?
    ensures KernelRun(s, ops).Down?
    decreases |ops|
  {
    if ops != [] { DownStays(KernelStep(s, ops[0]), ops[1..]); }
  }

  /** The same from initialisation, with the kernel's own bounds. */
  lemma {:induction false} KernelHeapRuns<Id>(nu: Id, ops: seq<Op<Id>>)
    ensures KernelMay(Fresh(nu), ops) ==>
              && KernelSafe(KernelRun(Fresh(nu), ops))
              && (KernelRun(Fresh(nu), ops).Up? <==> AllComplete(Fresh(nu), ops))
  {
    if KernelMay(Fresh(nu), ops) {
      FreshShape(nu);
      KernelRunSafe(Fresh(nu), ops);
      StaysUpExactly(Fresh(nu), ops);
    }
  }

  // ---------------------------------------------------------------- exactly when a run goes on

  ghost predicate CallCompletes<Id>(s: KernelState<Id>, op: Op<Id>) {
    s.Up? ==>
      match op
      case Request(align, size) => RequestCompletes(s.heap, align, size)
      case GiveBack(ptr, nu) => ptr in s.live ==> FreeCompletes(s.heap, ptr - HEADER, s.live[ptr] + HEADER, nu)
      case Scribble(headers) => true
  }

  ghost predicate AllComplete<Id>(s: KernelState<Id>, ops: seq<Op<Id>>)
    decreases |ops|
  {
    ops != [] ==> CallCompletes(s, ops[0]) && AllComplete(KernelStep(s, ops[0]), ops[1..])
  }

  lemma {:induction false} StepCompletesExactly<Id>(s: KernelState<Id>, op: Op<Id>)
    requires KernelSafe(s) && s.Up? && ClientMay(s, op)
    ensures KernelStep(s, op).Up? <==> CallCompletes(s, op)
  {
    hide Alloc, FreePointerDrawing, FreeDrawing, FreeCompletes, RequestCompletes, RequestFits, Blocks;
    hide Ordered, Positive, NotAbove;
    match op
    case Request(align, size) => RequestCompletesExactly(s.heap, align, size);
    case GiveBack(ptr, nu) =>
      FreeDrawingSafe(s.heap, s.live, ptr, nu);
      assert LiveOne(s.heap, ptr, s.live[ptr]);
      FreeCompletesExactly(s.heap, ptr - HEADER, s.live[ptr] + HEADER, nu);
    case Scribble(headers) =>
  }

  /** The exact condition for whole runs: the kernel's heap stays up if and only if every call completes. */
  lemma {:induction false} StaysUpExactly<Id>(s: KernelState<Id>, ops: seq<Op<Id>>)
    requires KernelSafe(s) && s.Up? && KernelMay(s, ops)
    ensures KernelRun(s, ops).Up? <==> AllComplete(s, ops)
    decreases |ops|
  {
    hide KernelSafe, ClientMay, KernelStep, CallCompletes;
    if ops != [] {
      KernelStepSafe(s, ops[0]);
      StepCompletesExactly(s, ops[0]);
      if KernelStep(s, ops[0]).Up? {
        StaysUpExactly(KernelStep(s, ops[0]), ops[1..]);
      } else {
        DownStays(KernelStep(s, ops[0]), ops[1..]);
      }
    }
  }

  /** At most three free blocks, and at every free the search finds one with more than a node's bytes. */
  ghost predicate StaysRoomy<Id>(s: KernelState<Id>, ops: seq<Op<Id>>)
    decreases |ops|
  {
    && (s.Up? ==> |Blocks(s.heap.tree)| <= 3)
    && (ops != [] ==>
          && (s.Up? && ops[0].GiveBack? && ops[0].ptr in s.live ==>
                var b := BestFit(Opened(s.heap, ops[0].ptr - HEADER, s.live[ops[0].ptr] + HEADER).0, DRAW);
                b.Br? && b.size > DRAW)
          && StaysRoomy(KernelStep(s, ops[0]), ops[1..]))
  }

  lemma {:induction false} RoomyCompletes<Id>(h: Heap<Id>, base: int, size: int, nu: Id)
    requires FreeOk(h) && Distinct(h.tree)
    requires size > 0 && h.start <= base && base + size <= h.end && !PathClashes(h.tree, base, size)
    requires |Blocks(h.tree)| <= 3
    requires var b := BestFit(Opened(h, base, size).0, DRAW); b.Br? && b.size > DRAW
    ensures FreeCompletes(h, base, size, nu)
  {
    hide Blocks, Ordered, Positive, NotAbove, PathClashes, BestFit, Drawn, Insert, InsertFaults, Overlapped;
    hide PathTips, Traceable, Resumed, Cut, Shaved, Neighbours, Distinct;
    var (t, from, total) := Opened(h, base, size);
    var b := BestFit(t, DRAW);
    OpenedTree(h, base, size);
    BestFitExact(t, DRAW);
    FoundServes(t);
    DrawnRefines(t, b, h.start, h.end);
    ShavedClear(Blocks(t), h.start, h.end, b.base, from, total);
    PartialTraceable(t, b, from);
    var (l, r) := Neighbours(h.tree, base, size, Nil, Nil);
    HeapFault.CutKeepsFew(h.tree, l);
    HeapFault.CutKeepsFew(Cut(h.tree, l), r);
    ShavedKeepsFew(Blocks(t), b.base);
    FewBlocksNeverFault(Drawn(t, b), from, total, nu);
    FaultsExactly(Drawn(t, b), from, total, nu);
  }

  lemma {:induction false} ShavedKeepsFew(m: map<int, int>, b: int)
    requires b in m
    ensures |Shaved(m, b, DRAW)| <= |m|
  {
    var rest := m - {b};
    assert rest.Keys == m.Keys - {b};
    assert |rest| == |m| - 1;
    var more := rest[b + DRAW := m[b] - DRAW];
    assert more.Keys == rest.Keys + {b + DRAW};
  }

  /** A run that keeps room never goes down. */
  lemma {:induction false} RoomyStaysUp<Id>(s: KernelState<Id>, ops: seq<Op<Id>>)
    requires KernelSafe(s) && s.Up? && KernelMay(s, ops) && StaysRoomy(s, ops)
    ensures KernelRun(s, ops).Up? && KernelSafe(KernelRun(s, ops))
    decreases |ops|
  {
    hide KernelStep, CallCompletes, BestFit, Opened, Blocks, Inv;
    if ops != [] {
      KernelStepSafe(s, ops[0]);
      RoomyStep(s, ops[0]);
      StepCompletesExactly(s, ops[0]);
      RoomyStaysUp(KernelStep(s, ops[0]), ops[1..]);
    }
  }

  lemma {:induction false} RoomyStep<Id>(s: KernelState<Id>, op: Op<Id>)
    requires KernelSafe(s) && s.Up? && ClientMay(s, op) && |Blocks(s.heap.tree)| <= 3
    requires op.GiveBack? && op.ptr in s.live ==>
               var b := BestFit(Opened(s.heap, op.ptr - HEADER, s.live[op.ptr] + HEADER).0, DRAW);
               b.Br? && b.size > DRAW
    ensures CallCompletes(s, op)
  {
    hide Alloc, FreePointerDrawing, FreeDrawing, FreeCompletes, RequestCompletes, RequestFits, Blocks;
    hide Ordered, Positive, NotAbove;
    match op
    case Request(align, size) =>
      HeapFault.FewBlocksAlloc(s.heap, align, size);
      RequestCompletesExactly(s.heap, align, size);
    case GiveBack(ptr, nu) =>
      FreeDrawingSafe(s.heap, s.live, ptr, nu);
      assert LiveOne(s.heap, ptr, s.live[ptr]);
      RoomyCompletes(s.heap, ptr - HEADER, s.live[ptr] + HEADER, nu);
    case Scribble(headers) =>
  }

  // ---------------------------------------------------------------- from initialisation

  /** The kernel's heap after initialisation. */
  ghost function Fresh<Id>(nu: Id): KernelState<Id> {
    Up(Initial(KHEAP_START, KHEAP_START + KHEAP_INITIAL, KHEAP_MAX, nu), map[], {})
  }

  lemma {:induction false} FreshShape<Id>(nu: Id)
    ensures KernelSafe(Fresh(nu))
    ensures Fresh(nu).heap == Heap(Br(nu, Nil, KHEAP_START, KHEAP_INITIAL, 1, Nil), KHEAP_START,
                                   KHEAP_START + KHEAP_INITIAL, KHEAP_MAX, map[])
  {
    InitialSafe(KHEAP_START, KHEAP_START + KHEAP_INITIAL, KHEAP_MAX, nu);
    assert AlignUp(KHEAP_START) == KHEAP_START;
    assert AlignUp(KHEAP_START + KHEAP_INITIAL) == KHEAP_START + KHEAP_INITIAL;
    WrapSmall(KHEAP_INITIAL);
    assert Insert(Nil, KHEAP_START, KHEAP_INITIAL, nu) == Br(nu, Nil, KHEAP_START, KHEAP_INITIAL, 1, Nil);
  }
}
