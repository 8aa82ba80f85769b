/**
  The heap as the kernel keeps it: linked tree nodes changed in place, two pointers into the tree
  held across deletions, and headers written in front of every block. Every method turns the
  heap into exactly the value the corresponding function of `HeapModel` computes.
 */
module HeapArea {
  import opened Machine
  import opened AvlTree
  import opened AvlNodes
  import opened FreeBlocks
  import opened HeapModel

  /** The recursive block search on linked nodes. */
  function FindBestFit(n: Node?, size: int, ghost t: Tree<Node>): (r: Node?)
    requires Rep(n, t)
    reads Ids(t)
    ensures r == null <==> BestFit(t, size).Nil?
    ensures r != null ==> var b := BestFit(t, size);
              r == b.id && r in Ids(t) && r.base == b.base && r.size == b.size
    decreases t
  {
    if n == null then null
    else if n.size >= size then
      var l := FindBestFit(n.left, size, t.left);
      if l != null && l.size < n.size then l else n
    else FindBestFit(n.right, size, t.right)
  }

  /** Like `Rep`, but silent about the block stored in `x`. */
  ghost predicate RepBut(n: Node?, t: Tree<Node>, x: Node)
    reads Ids(t)`left, Ids(t)`right, Ids(t)`height, (Ids(t) - {x})`base, (Ids(t) - {x})`size
    decreases t
  {
    if t.Nil? then n == null
    else
      && n == t.id
      && (n != x ==> n.base == t.base && n.size == t.size)
      && n.height == t.height
      && RepBut(n.left, t.left, x)
      && RepBut(n.right, t.right, x)
  }

  lemma {:induction false} RepIsRepBut(n: Node?, t: Tree<Node>, x: Node)
    requires Rep(n, t)
    ensures RepBut(n, t, x)
    decreases t
  {
    if t.Br? {
      RepIsRepBut(n.left, t.left, x);
      RepIsRepBut(n.right, t.right, x);
    }
  }

  lemma {:induction false} RepButElsewhere(n: Node?, t: Tree<Node>, x: Node)
    requires RepBut(n, t, x) && x !in Ids(t)
    ensures Rep(n, t)
    decreases t
  {
    if t.Br? {
      RepButElsewhere(n.left, t.left, x);
      RepButElsewhere(n.right, t.right, x);
    }
  }

  /** Node `x` of the tree holds the block at `key`. */
  ghost predicate Sits<Id>(t: Tree<Id>, x: Id, key: int) {
    t.Br? && (t.id == x ==> t.base == key) && (x in Ids(t.left) ==> Sits(t.left, x, key))
          && (x in Ids(t.right) ==> Sits(t.right, x, key)) && x in Ids(t)
  }

  lemma {:induction false} SitsInside<Id>(t: Tree<Id>, x: Id, key: int)
    requires Sits(t, x, key) && Ordered(t)
    ensures key in Blocks(t)
    decreases t
  {
    if x in Ids(t.left) { SitsInside(t.left, x, key); }
    else if x in Ids(t.right) { SitsInside(t.right, x, key); }
    KeySide(t, key);
  }

  lemma {:induction false} NodeSits(n: Node?, t: Tree<Node>, x: Node)
    requires Rep(n, t) && x in Ids(t)
    ensures Sits(t, x, x.base)
    decreases t
  {
    if x in Ids(t.left) { NodeSits(n.left, t.left, x); }
    if x in Ids(t.right) { NodeSits(n.right, t.right, x); }
  }

  /** Once the block of `x` was changed in place, the nodes hold the tree carved at the old key. */
  lemma {:induction false} CarvedInPlace(n: Node?, t: Tree<Node>, x: Node, key: int)
    requires RepBut(n, t, x) && Distinct(t) && Ordered(t) && Sits(t, x, key)
    ensures Rep(n, Carve(t, key, x.base, x.size))
    decreases t
  {
    SitsInside(t, x, key);
    KeySide(t, key);
    if t.id == x {
      RepButElsewhere(n.left, t.left, x);
      RepButElsewhere(n.right, t.right, x);
    } else if x in Ids(t.left) {
      SitsInside(t.left, x, key);
      CarvedInPlace(n.left, t.left, x, key);
      RepButElsewhere(n.right, t.right, x);
    } else {
      SitsInside(t.right, x, key);
      CarvedInPlace(n.right, t.right, x, key);
      RepButElsewhere(n.left, t.left, x);
    }
  }

  method CarveNode(n: Node?, x: Node, base: int, size: int, ghost t: Tree<Node>)
    requires Holds(n, t) && Ordered(t) && x in Ids(t)
    modifies x`base, x`size
    ensures x.base == base && x.size == size
    ensures Holds(n, Carve(t, old(x.base), base, size))
  {
    ghost var key := x.base;
    NodeSits(n, t, x);
    RepIsRepBut(n, t, x);
    x.base := base;
    x.size := size;
    CarvedInPlace(n, t, x, key);
    CarveKeepsIds(t, key, base, size);
  }

  /** The loop that looks for an overlap on the search path of `base`. */
  method FindClash(root: Node?, base: int, size: int, ghost t: Tree<Node>) returns (clash: bool)
    requires Rep(root, t)
    ensures clash == PathClashes(t, base, size)
  {
    var current := root;
    ghost var c := t;
    while current != null
      invariant Rep(current, c) && PathClashes(c, base, size) == PathClashes(t, base, size)
      decreases c
    {
      if (base >= current.base && base < current.base + current.size)
         || (base + size > current.base && base + size <= current.base + current.size)
         || (base < current.base && base + size > current.base + current.size)
      {
        return true;
      }
      if base < current.base {
        current, c := current.left, c.left;
      } else {
        current, c := current.right, c.right;
      }
    }
    clash := false;
  }

  /** A neighbour as a pointer and as a tree value. */
  ghost predicate Points(p: Node?, n: Tree<Node>, ids: set<Node>)
    reads p
  {
    (p == null <==> n.Nil?) && (p != null ==> p == n.id && p in ids && p.base == n.base && p.size == n.size)
  }

  /** The loop that collects both neighbours along the search path of `base`. */
  method FindNeighbours(root: Node?, base: int, size: int, ghost t: Tree<Node>)
    returns (l: Node?, r: Node?)
    requires Rep(root, t)
    ensures var (lt, rt) := Neighbours(t, base, size, Nil, Nil);
            Points(l, lt, Ids(t)) && Points(r, rt, Ids(t))
  {
    l, r := null, null;
    var current := root;
    ghost var c: Tree<Node>, lt: Tree<Node>, rt: Tree<Node> := t, Nil, Nil;
    while current != null
      invariant Rep(current, c) && Ids(c) <= Ids(t)
      invariant Points(l, lt, Ids(t)) && Points(r, rt, Ids(t))
      invariant Neighbours(c, base, size, lt, rt) == Neighbours(t, base, size, Nil, Nil)
      decreases c
    {
      if current.base + current.size == base {
        l, lt := current, c;
      } else if base + size == current.base {
        r, rt := current, c;
      }
      if l != null && r != null {
        return;
      }
      if base < current.base {
        current, c := current.left, c.left;
      } else {
        current, c := current.right, c.right;
      }
    }
  }

  datatype FreeCode = Refused | Clashed | Returned | Broke

  class HeapArea {
    var root: Node?
    var startAddr: int
    var endAddr: int
    var maxSize: int
    var headers: map<int, Header>
    ghost var tree: Tree<Node>

    /** The heap as a value. */
    ghost function State(): Heap<Node>
      reads this
    {
      Heap(tree, startAddr, endAddr, maxSize, headers)
    }

    ghost predicate Valid()
      reads this, Ids(tree)
    {
      Holds(root, tree) && FreeOk(State()) && Paged(State())
    }

    /** Removes the block at `base`; any node that held another block still reads it, linked or not. */
    method Remove(base: int, ghost n: Tree<Node>)
      requires Holds(root, tree) && Sound(tree) && n.Br? && base == n.base
      modifies this`root, this`tree, Ids(tree)
      ensures tree == Cut(old(tree), n) && Holds(root, tree) && Sound(tree)
      ensures Ids(tree) <= old(Ids(tree))
      ensures forall y: Node :: old(allocated(y)) && y in old(Ids(tree)) && old(y.base) != base ==>
                y.base == old(y.base) && y.size == old(y.size)
    {
      DeleteRefinesMap(tree, base);
      DeleteIds(tree, base);
      root := AvlDelete(root, base, tree);
      tree := Delete(tree, base);
    }

    /** Inserts a block. */
    method Put(base: int, size: int) returns (fault: bool, ghost nu: Node?)
      requires Holds(root, tree) && Sound(tree) && size != 0
      modifies this`root, this`tree, Ids(tree)`left, Ids(tree)`right, Ids(tree)`height
      ensures nu != null
      ensures fault == InsertFaults<Node>(old(tree), base, size, nu)
      ensures !fault ==> tree == Insert<Node>(old(tree), base, size, nu) && Holds(root, tree)
    {
      ghost var t := tree;
      var m;
      m, fault, nu := AvlInsert(root, base, size, tree);
      if !fault {
        root := m;
        tree := Insert<Node>(t, base, size, nu);
      }
    }

    /** A heap over the given range, rounded to pages. */
    constructor (start: int, end: int, max: int)
      requires 0 <= start <= end && end + PAGE - 1 < WORD && 0 <= max < WORD
      ensures Valid()
      ensures startAddr == AlignUp(start) && endAddr == AlignUp(end) && maxSize == max && headers == map[]
      ensures tree.Br? ==> State() == Initial(start, end, max, tree.id)
      ensures tree.Nil? ==> startAddr == endAddr
    {
      startAddr, endAddr, maxSize, headers := AlignUp(start), AlignUp(end), max, map[];
      AlignUpRounds(start);
      AlignUpRounds(end);
      AlignUpMonotone(start, end);
      WrapSmall(AlignUp(end) - AlignUp(start));
      root, tree := null, Nil;
      new;
      assert FreeOk(State()) && Paged(State());
      if endAddr != startAddr {
        assert Holds(root, tree);
        var fault; ghost var nu;
        fault, nu := Put(startAddr, endAddr - startAddr);
        InitialSafe<Node>(start, end, max, nu);
      }
    }

    /**
      Takes both neighbours of a range out of the tree. The right one is read through a pointer
      taken before the left one was deleted, and still reads its own block.
     */
    method Detach(base: int, size: int) returns (b: int, s: int)
      requires Valid() && size > 0 && !PathClashes(tree, base, size)
      modifies this`root, this`tree, Ids(tree)
      ensures var (lt, rt) := Neighbours(old(tree), base, size, Nil, Nil);
              && tree == Cut(Cut(old(tree), lt), rt)
              && b == (if lt.Br? then lt.base else base) && s == size + SizeOf(lt) + SizeOf(rt)
      ensures Holds(root, tree) && Sound(tree) && Ids(tree) <= old(Ids(tree))
    {
      hide Delete, Blocks, Ordered, Positive, NotAbove, PathClashes, Neighbours;
      assert allocated(Ids(tree));
      var l, r := FindNeighbours(root, base, size, tree);
      ghost var (lt, rt) := Neighbours(tree, base, size, Nil, Nil);
      NeighboursOf(State(), base, size);
      b, s := base, size;
      if l != null {
        b := l.base;
        s := s + l.size;
        Remove(l.base, lt);
      }
      if r != null {
        s := s + r.size;
        Remove(r.base, rt);
      }
    }

    /**
      Frees a range. A refusal changes nothing. Otherwise the new heap is exactly the one of
      `FreeRange`, although the right neighbour is read through a pointer taken before the left
      one was deleted.
     */
    method HeapFree(base: int, size: int) returns (code: FreeCode, ghost nu: Node?)
      requires Valid() && 0 <= base && 0 <= size && base + size < WORD
      modifies this`root, this`tree, Ids(tree)
      ensures code.Refused? <==> size == 0 || base < startAddr || base + size > endAddr
      ensures code.Clashed? <==> !code.Refused? && PathClashes(old(tree), base, size)
      ensures code.Refused? || code.Clashed? ==> tree == old(tree) && Valid()
      ensures code.Returned? || code.Broke? ==> nu != null
      ensures code.Returned? ==> FreeRange<Node>(old(State()), base, size, nu) == Freed(State()) && Valid()
      ensures code.Broke? ==> FreeRange<Node>(old(State()), base, size, nu).Crash?
    {
      hide Insert, InsertFaults, Delete, Blocks, Ordered, Positive, NotAbove, PathClashes, Neighbours;
      nu := null;
      assert allocated(Ids(tree));
      WrapSmall(base + size);
      if size == 0 || base < startAddr || base + size > endAddr {
        return Refused, null;
      }
      var clash := FindClash(root, base, size, tree);
      if clash {
        return Clashed, null;
      }
      ghost var h := State();
      var b, s := Detach(base, size);
      NeighboursOf(h, base, size);
      var fault;
      fault, nu := Put(b, s);
      code := if fault then Broke else Returned;
      FreeExact<Node>(h, base, size, nu);
    }

    /** Frees a pointer: the size of its block is read from the header in front of it. */
    method Ifree(ptr: int) returns (code: FreeCode, ghost nu: Node?)
      requires Valid() && 0 <= ptr < WORD
      requires var a := Wrap(ptr - HEADER);
               ptr != 0 && HeaderAt(State(), a).magic == MAGIC ==>
                 0 <= HeaderAt(State(), a).size && a + HEADER + HeaderAt(State(), a).size < WORD
      modifies this`root, this`tree, Ids(tree)
      ensures code.Returned? || code.Broke? ==> nu != null
      ensures code.Returned? ==> FreePointer<Node>(old(State()), ptr, nu) == Freed(State()) && Valid()
      ensures code.Broke? ==> FreePointer<Node>(old(State()), ptr, nu).Crash?
      ensures code.Refused? <==>
                var a := Wrap(ptr - HEADER);
                var hd := HeaderAt(old(State()), a);
                ptr == 0 || hd.magic != MAGIC || a < startAddr || a + HEADER + hd.size > endAddr
      ensures code.Refused? || code.Clashed? ==> State() == old(State()) && Valid()
      ensures code.Clashed? ==> forall n: Node :: FreePointer(old(State()), ptr, n).Overlap?
    {
      hide Blocks, Ordered, Positive, NotAbove, PathClashes, Neighbours, Merge;
      if ptr == 0 {
        return Refused, null;
      }
      var a := Wrap(ptr - HEADER);
      if a !in headers || headers[a].magic != MAGIC {
        return Refused, null;
      }
      var size := headers[a].size + HEADER;
      WrapSmall(size);
      WrapSmall(a + size);
      code, nu := HeapFree(a, size);
    }

    /** Moves the end of the heap; the frames behind the new pages are not part of this class. */
    method ExpandHeap(size: int) returns (r: int)
      modifies this`endAddr
      ensures (State(), r) == Expand(old(State()), size)
    {
      var newEnd := AlignUp(Wrap(endAddr + size));
      if newEnd > Wrap(startAddr + maxSize) {
        return 0;
      }
      endAddr := newEnd;
      r := Wrap(endAddr - startAddr);
    }

    /** Takes `cut` bytes off the front of the block in `best`, unlinking the node when nothing is left. */
    method CarveFront(best: Node, cut: int)
      requires Holds(root, tree) && FreeOk(State()) && best in Ids(tree) && 0 < cut <= best.size
      requires best.base in Blocks(tree) && Blocks(tree)[best.base] == best.size
      modifies this`root, this`tree, Ids(tree)
      ensures tree == Carved(old(tree), old(best.base), old(best.base) + cut, old(best.size) - cut)
      ensures Holds(root, tree)
    {
      hide Insert, InsertFaults, Delete, Carve, Blocks, Ordered, Positive, NotAbove;
      ghost var t, key, size := tree, best.base, best.size;
      ShavedReplaceable(t, startAddr, endAddr, key, cut);
      CarveRefinesMap(t, key, key + cut, size - cut);
      CarveKeepsIds(t, key, key + cut, size - cut);
      CarveNode(root, best, best.base + cut, best.size - cut, t);
      tree := Carve(t, key, key + cut, size - cut);
      if best.size == 0 {
        Remove(best.base, Br(best, Nil, key + cut, 0, 1, Nil));
      }
    }

    /** Carves `off + HEADER + size` bytes off the front of `best`, unlinking it when nothing is left. */
    method AllocFromNode(best: Node, off: int, size: int, ghost bt: Tree<Node>) returns (addr: int, fault: bool)
      requires Valid() && bt.Br? && best == bt.id && best in Ids(tree) && best.base == bt.base && best.size == bt.size
      requires bt.base in Blocks(tree) && Blocks(tree)[bt.base] == bt.size && tree.Br?
      requires 0 <= off && 0 <= size && off + HEADER + size <= bt.size
      modifies this`root, this`tree, this`headers, Ids(tree)
      ensures fault ==> AllocAt(old(State()), size, bt, off).Fault?
      ensures !fault ==> AllocAt(old(State()), size, bt, off) == Done(State(), addr) && Holds(root, tree)
    {
      hide Insert, InsertFaults, Delete, Carve, Blocks, Ordered, Positive, NotAbove;
      ghost var t0 := tree;
      var cut := off + HEADER + size;
      var a := best.base + off;
      fault := false;
      assert allocated(Ids(tree));
      if off > HEADER {
        InsertRefinesMap(t0, bt.base, off, t0.id);
        InsertIds(t0, bt.base, off, t0.id);
        ghost var nu;
        fault, nu := Put(best.base, off);
        InsertPresent<Node>(t0, bt.base, off, nu, t0.id);
        if fault {
          return 0, true;
        }
      }
      CarveFront(best, cut);
      headers := headers[a := Header(MAGIC, size)];
      addr := a + HEADER;
    }

    /**
      Allocates `size` bytes, page-aligned if asked. Unless the insertion of the alignment
      fragment faults, the answer and the new heap are exactly those of `Alloc`, and the block is cut
      from the one that `Served` describes.
     */
    method HeapAlloc(align: bool, size: int) returns (addr: int, fault: bool)
      requires Valid() && 0 <= size && RequestFits(State(), align, size)
      modifies this, Ids(tree)
      ensures fault ==> Alloc(old(State()), align, size).Fault?
      ensures !fault ==> Alloc(old(State()), align, size) == Done(State(), addr) && Valid()
      ensures !fault ==> Served(old(State()), align, size, State(), addr)
    {
      hide AllocExpanding, AllocFrom, AllocAt, BestFit, Blocks, Ordered, Positive, NotAbove, Served;
      ghost var h := State();
      WrapSmall(size + (if align then PAGE - 1 else 0) + HEADER);
      BestFitOfNil(tree, Need(align, size));
      BestFitFits(tree, Need(align, size));
      assert Inv(h, map[]);
      AllocSafe(h, map[], align, size);
      AllocServes(h, align, size);
      StoredHeights(root, tree);
      assert allocated(Ids(tree));
      var best := FindBestFit(root, size + (if align then PAGE - 1 else 0) + HEADER, tree);
      if best == null {
        addr := AllocPastEnd(align, size);
        fault := false;
      } else {
        ghost var bt := BestFit(tree, Need(align, size));
        var moved := align && best.base % PAGE != PAGE - HEADER;
        var off := if moved then Placed(true, best.base) - best.base else 0;
        ghost var off' := AllocFromPlain(h, align, size, bt);
        addr, fault := AllocFromNode(best, off, size, bt);
      }
    }

    /** Serves a request from beyond the current end. */
    method AllocPastEnd(align: bool, size: int) returns (addr: int)
      modifies this`endAddr, this`headers
      ensures AllocExpanding(old(State()), align, size) == Done(State(), addr)
    {
      var a := Placed(align, endAddr);
      var r := ExpandHeap(Wrap(Wrap(a - endAddr) + HEADER + size));
      if r == 0 {
        return 0;
      }
      headers := headers[a := Header(MAGIC, size)];
      addr := Wrap(a + HEADER);
    }
  }

  /** The two neighbours of a range that overlaps nothing are different blocks, on either side of it. */
  lemma {:induction false} NeighboursOf(h: Heap<Node>, base: int, size: int)
    requires FreeOk(h) && size > 0 && !PathClashes(h.tree, base, size)
    ensures var (l, r) := Neighbours(h.tree, base, size, Nil, Nil);
            && (l.Br? ==> l.base < base && l.size > 0)
            && (r.Br? ==> r.base == base + size && r.size > 0)
  {
    SeparateIsDisjoint(Blocks(h.tree));
    PathDetectsOverlap(h.tree, base, size);
    PathFindsNeighbours(h.tree, base, size);
  }
}
