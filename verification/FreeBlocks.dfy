/**
  Searching the tree of free blocks: the allocator's choice of a block, and the single search path
  on which a free looks for overlaps and for neighbours.
 */
module FreeBlocks {
  import opened AvlTree

  // ---------------------------------------------------------------- choosing a block

  /** The allocator's choice: it looks left only below a node that fits, and right only past one that does not. */
  function BestFit<Id>(t: Tree<Id>, size: int): Tree<Id> {
    if t.Nil? then Nil
    else if t.size >= size then
      var l := BestFit(t.left, size);
      if l.Br? && l.size < t.size then l else t
    else BestFit(t.right, size)
  }

  /** The block sizes met from the root by going right only. */
  function RightSpine<Id>(t: Tree<Id>): seq<int> {
    if t.Nil? then [] else [t.size] + RightSpine(t.right)
  }

  ghost predicate AllBelow(s: seq<int>, size: int) {
    forall i :: 0 <= i < |s| ==> s[i] < size
  }

  /** The first node of the right spine that fits. */
  function SpineFit<Id>(t: Tree<Id>, size: int): Tree<Id> {
    if t.Nil? then Nil else if t.size >= size then t else SpineFit(t.right, size)
  }

  /** The fits met by repeating the right-spine search in the left subtree of each fit. */
  function Chain<Id>(t: Tree<Id>, size: int): seq<Tree<Id>>
    decreases RealHeight(t)
  {
    var f := SpineFit(t, size);
    SpineFitLower(t, size);
    if f.Nil? then [] else [f] + Chain(f.left, size)
  }

  lemma {:induction false} SpineFitLower<Id>(t: Tree<Id>, size: int)
    ensures SpineFit(t, size).Br? ==> RealHeight(SpineFit(t, size).left) < RealHeight(t)
    decreases t
  {
    if t.Br? && t.size < size {
      SpineFitLower(t.right, size);
    }
  }

  lemma {:induction false} SpineFitIsFirst<Id>(t: Tree<Id>, size: int)
    ensures SpineFit(t, size).Nil? <==> AllBelow(RightSpine(t), size)
    decreases t
  {
    if t.Br? {
      SpineFitIsFirst(t.right, size);
      AllBelowCons(t.size, RightSpine(t.right), size);
    }
  }

  lemma AllBelowCons(x: int, s: seq<int>, size: int)
    ensures AllBelow([x] + s, size) <==> x < size && AllBelow(s, size)
  {
    var c := [x] + s;
    assert c[0] == x && forall i :: 0 <= i < |s| ==> s[i] == c[i + 1];
  }

  /** `r` is the smallest of `c`, and the earliest of its size. */
  ghost predicate EarliestSmallest<Id>(c: seq<Tree<Id>>, r: Tree<Id>) {
    exists i ::
      && 0 <= i < |c| && c[i] == r && r.Br?
      && (forall j :: 0 <= j < |c| ==> c[j].Br? && r.size <= c[j].size)
      && (forall j :: 0 <= j < i ==> r.size < c[j].size)
  }

  /**
    What the search really answers: nothing exactly when no right-spine node is large enough,
    and otherwise the earliest smallest node of the chain.
   */
  lemma {:induction false} BestFitExact<Id>(t: Tree<Id>, size: int)
    ensures BestFit(t, size).Nil? <==> AllBelow(RightSpine(t), size)
    ensures BestFit(t, size).Br? ==> EarliestSmallest(Chain(t, size), BestFit(t, size))
    ensures BestFit(t, size).Nil? ==> Chain(t, size) == []
    decreases t
  {
    SpineFitIsFirst(t, size);
    if t.Br? {
      if t.size >= size {
        BestFitExact(t.left, size);
        var c, l := Chain(t.left, size), BestFit(t.left, size);
        assert Chain(t, size) == [t] + c;
        ChainAllFit(t.left, size);
        if l.Br? {
          ChainGrows(t, c, l);
        } else {
          assert Chain(t, size)[0] == t;
        }
      } else {
        BestFitExact(t.right, size);
        SpineFitIsFirst(t.right, size);
        assert SpineFit(t, size) == SpineFit(t.right, size);
        assert Chain(t, size) == Chain(t.right, size);
      }
    }
  }

  lemma {:induction false} ChainAllFit<Id>(t: Tree<Id>, size: int)
    ensures forall i :: 0 <= i < |Chain(t, size)| ==> Chain(t, size)[i].Br? && Chain(t, size)[i].size >= size
    decreases RealHeight(t)
  {
    var f := SpineFit(t, size);
    SpineFitLower(t, size);
    SpineFitFits(t, size);
    if f.Br? {
      ChainAllFit(f.left, size);
    }
  }

  lemma {:induction false} SpineFitFits<Id>(t: Tree<Id>, size: int)
    ensures SpineFit(t, size).Br? ==> SpineFit(t, size).size >= size
    decreases t
  {
    if t.Br? { SpineFitFits(t.right, size); }
  }

  lemma {:induction false} ChainGrows<Id>(t: Tree<Id>, c: seq<Tree<Id>>, l: Tree<Id>)
    requires t.Br? && EarliestSmallest(c, l)
    ensures EarliestSmallest([t] + c, if l.size < t.size then l else t)
  {
    var d := [t] + c;
    var i :| && 0 <= i < |c| && c[i] == l && l.Br?
             && (forall j :: 0 <= j < |c| ==> c[j].Br? && l.size <= c[j].size)
             && (forall j :: 0 <= j < i ==> l.size < c[j].size);
    assert forall j :: 1 <= j < |d| ==> d[j] == c[j - 1];
    if l.size < t.size {
      assert d[i + 1] == l;
    } else {
      assert d[0] == t;
    }
  }

  /** The chosen node is a block of the tree that is large enough. */
  lemma {:induction false} BestFitFits<Id>(t: Tree<Id>, size: int)
    requires Ordered(t)
    ensures BestFit(t, size).Br? ==>
      var b := BestFit(t, size);
      b.size >= size && b.id in Ids(t) && b.base in Blocks(t) && Blocks(t)[b.base] == b.size
    decreases t
  {
    if t.Br? {
      BestFitFits(t.left, size);
      BestFitFits(t.right, size);
      KeySide(t, t.base);
    }
  }

  /** The search is incomplete: it can refuse a request that a block in a left subtree would serve. */
  lemma BestFitCanMiss(t: Tree<()>)
    requires t == Br((), Br((), Nil, 0, 100, 1, Nil), 200, 8, 2, Nil)
    ensures Blocks(t)[0] >= 50 && BestFit(t, 50).Nil?
  {
    assert Blocks(t.left) == map[0 := 100];
  }

  /** Nor is it best fit: a smaller block to the right of a fitting one is not considered. */
  lemma BestFitCanWaste(t: Tree<()>)
    requires t == Br((), Nil, 0, 100, 2, Br((), Nil, 200, 60, 1, Nil))
    ensures 50 <= Blocks(t)[200] < BestFit(t, 50).size
  {
    assert Blocks(t.right) == map[200 := 60];
  }

  // ---------------------------------------------------------------- the search path of a free

  /** Blocks are non-empty and disjoint. */
  ghost predicate Disjoint(m: map<int, int>) {
    && (forall k :: k in m ==> m[k] > 0)
    && (forall a, b :: a in m && b in m && a < b ==> a + m[a] <= b)
  }

  /** Blocks are non-empty and do not even touch. */
  ghost predicate Separate(m: map<int, int>) {
    && (forall k :: k in m ==> m[k] > 0)
    && (forall a, b :: a in m && b in m && a < b ==> a + m[a] < b)
  }

  /** The three-way test a free makes against one block. */
  predicate Clashes(base: int, size: int, b: int, s: int) {
    || (b <= base < b + s)
    || (b < base + size <= b + s)
    || (base < b && base + size > b + s)
  }

  /** Some block shares an address with the range. */
  ghost predicate Overlapped(m: map<int, int>, base: int, size: int) {
    exists k :: k in m && k < base + size && base < k + m[k]
  }

  /** The test is made only against the nodes on the search path of `base`. */
  predicate PathClashes<Id>(t: Tree<Id>, base: int, size: int) {
    && t.Br?
    && (|| Clashes(base, size, t.base, t.size)
        || PathClashes(Toward(t, base), base, size))
  }

  /** The blocks of the child on the path, and where the others lie. */
  lemma {:induction false} TowardSplits<Id>(t: Tree<Id>, base: int)
    requires t.Br? && Ordered(t) && Disjoint(Blocks(t))
    ensures var m, c := Blocks(t), Blocks(Toward(t, base));
            && t.size > 0 && t.base in m && m[t.base] == t.size
            && Disjoint(c)
            && (forall k :: k in c ==> k in m && m[k] == c[k] && k != t.base)
            && (forall k :: k in m ==> k in c || k == t.base
                                       || (if base < t.base then t.base + t.size <= k else k + m[k] <= t.base))
  {
    var c := Blocks(Toward(t, base));
    KeySide(t, t.base);
    forall k ensures k in c ==> k in Blocks(t) && Blocks(t)[k] == c[k] {
      KeySide(t, k);
    }
  }

  /** One path is enough: it meets a clash exactly when some block anywhere overlaps the range. */
  lemma {:induction false} PathDetectsOverlap<Id>(t: Tree<Id>, base: int, size: int)
    requires Ordered(t) && Disjoint(Blocks(t)) && size > 0
    ensures PathClashes(t, base, size) <==> Overlapped(Blocks(t), base, size)
    decreases t
  {
    if t.Br? {
      TowardSplits(t, base);
      assert Clashes(base, size, t.base, t.size) <==> t.base < base + size && base < t.base + t.size;
      if !Clashes(base, size, t.base, t.size) {
        PathDetectsOverlap(Toward(t, base), base, size);
        OverlapBelow(t, base, size);
      }
    }
  }

  lemma {:induction false} OverlapBelow<Id>(t: Tree<Id>, base: int, size: int)
    requires t.Br? && Ordered(t) && Disjoint(Blocks(t)) && size > 0
    requires !(t.base < base + size && base < t.base + t.size)
    ensures Overlapped(Blocks(t), base, size) <==> Overlapped(Blocks(Toward(t, base)), base, size)
  {
    TowardSplits(t, base);
    if Overlapped(Blocks(t), base, size) {
      var k :| k in Blocks(t) && k < base + size && base < k + Blocks(t)[k];
      assert k in Blocks(Toward(t, base));
    }
    if Overlapped(Blocks(Toward(t, base)), base, size) {
      var k :| k in Blocks(Toward(t, base)) && k < base + size && base < k + Blocks(Toward(t, base))[k];
      assert k in Blocks(t);
    }
  }

  /** The loop that collects both neighbours along the search path, stopping once it has them. */
  function Neighbours<Id>(t: Tree<Id>, base: int, size: int, l: Tree<Id>, r: Tree<Id>): (Tree<Id>, Tree<Id>) {
    if t.Nil? then (l, r)
    else
      var l' := if t.base + t.size == base then t else l;
      var r' := if t.base + t.size != base && base + size == t.base then t else r;
      if l'.Br? && r'.Br? then (l', r')
      else Neighbours(Toward(t, base), base, size, l', r')
  }

  /** `n` is the block of `m` that ends at `base`, or nothing if there is none. */
  ghost predicate EndsAt<Id>(m: map<int, int>, base: int, n: Tree<Id>) {
    if n.Br? then n.base in m && m[n.base] == n.size && n.base + n.size == base
    else forall k :: k in m ==> k + m[k] != base
  }

  /** `n` is the block of `m` that starts at `end`, or nothing if there is none. */
  ghost predicate StartsAt<Id>(m: map<int, int>, end: int, n: Tree<Id>) {
    if n.Br? then n.base == end && end in m && m[end] == n.size
    else end !in m
  }

  /** `l` and `r` are the two neighbours of the range among the blocks `m`. */
  ghost predicate AreNeighbours<Id>(m: map<int, int>, base: int, size: int, l: Tree<Id>, r: Tree<Id>) {
    EndsAt(m, base, l) && StartsAt(m, base + size, r)
  }

  /** The path finds both neighbours whenever they exist, and nothing else. */
  lemma {:induction false} PathFindsNeighbours<Id>(t: Tree<Id>, base: int, size: int)
    requires Ordered(t) && Disjoint(Blocks(t)) && size > 0 && !Overlapped(Blocks(t), base, size)
    ensures var (l, r) := Neighbours(t, base, size, Nil, Nil);
            && AreNeighbours(Blocks(t), base, size, l, r)
            && (l.Br? ==> l.id in Ids(t)) && (r.Br? ==> r.id in Ids(t))
  {
    ScanFinds(t, base, size, Nil, Nil);
  }

  /** What the loop still has to find, given what it has. */
  ghost predicate Missing<Id>(m: map<int, int>, base: int, size: int, l: Tree<Id>, r: Tree<Id>) {
    && (l.Br? ==> EndsAt(m, base, Tree<Id>.Nil))
    && (r.Br? ==> base + size !in m)
    && !(l.Br? && r.Br?)
  }

  /** What the loop reports on `m` when it started out with `l` and `r`. */
  ghost predicate Scanned<Id>(m: map<int, int>, ids: set<Id>, base: int, size: int,
                              l: Tree<Id>, r: Tree<Id>, l': Tree<Id>, r': Tree<Id>) {
    && (if l.Br? then l' == l else EndsAt(m, base, l') && (l'.Br? ==> l'.id in ids))
    && (if r.Br? then r' == r else StartsAt(m, base + size, r') && (r'.Br? ==> r'.id in ids))
  }

  lemma {:induction false} ScanFinds<Id>(t: Tree<Id>, base: int, size: int, l: Tree<Id>, r: Tree<Id>)
    requires Ordered(t) && Disjoint(Blocks(t)) && size > 0 && !Overlapped(Blocks(t), base, size)
    requires Missing(Blocks(t), base, size, l, r)
    ensures var (l', r') := Neighbours(t, base, size, l, r);
            Scanned(Blocks(t), Ids(t), base, size, l, r, l', r')
    decreases t
  {
    hide Blocks, Ordered, Overlapped, Ids;
    if t.Nil? {
      ScanNothing(t, base, size, l, r);
    } else {
      var u := Toward(t, base);
      KeySide(t, t.base);
      NeighboursBelow(t, base, size);
      OwnId(t);
      var l1 := if t.base + t.size == base then t else l;
      var r1 := if t.base + t.size != base && base + size == t.base then t else r;
      if !(l1.Br? && r1.Br?) {
        ScanFinds(u, base, size, l1, r1);
        var (l', r') := Neighbours(u, base, size, l1, r1);
        ScanStep(t, base, size, l, r, l', r');
      }
    }
  }

  lemma ScanNothing<Id>(t: Tree<Id>, base: int, size: int, l: Tree<Id>, r: Tree<Id>)
    requires t.Nil?
    ensures Scanned(Blocks(t), Ids(t), base, size, l, r, l, r)
  {
  }

  lemma OwnId<Id>(t: Tree<Id>)
    requires t.Br?
    ensures t.id in Ids(t)
  {
  }

  lemma {:induction false} ScanStep<Id>(t: Tree<Id>, base: int, size: int,
                                        l: Tree<Id>, r: Tree<Id>, l': Tree<Id>, r': Tree<Id>)
    requires t.Br? && Ordered(t) && Disjoint(Blocks(t)) && size > 0 && !Overlapped(Blocks(t), base, size)
    requires Missing(Blocks(t), base, size, l, r)
    requires var l1 := if t.base + t.size == base then t else l;
             var r1 := if t.base + t.size != base && base + size == t.base then t else r;
             Scanned(Blocks(Toward(t, base)), Ids(Toward(t, base)), base, size, l1, r1, l', r')
    ensures Scanned(Blocks(t), Ids(t), base, size, l, r, l', r')
  {
    KeySide(t, t.base);
    NeighboursBelow(t, base, size);
    if t.base + t.size == base {
      assert EndsAt(Blocks(t), base, t);
    }
  }

  lemma {:induction false} NeighboursBelow<Id>(t: Tree<Id>, base: int, size: int)
    requires t.Br? && Ordered(t) && Disjoint(Blocks(t)) && size > 0 && !Overlapped(Blocks(t), base, size)
    ensures var m, u := Blocks(t), Toward(t, base);
            var c := Blocks(u);
            && Ordered(u) && Disjoint(c) && !Overlapped(c, base, size) && Ids(u) <= Ids(t)
            && (forall k :: k in c ==> k in m && m[k] == c[k])
            && (forall k :: k in m && k != t.base && k + m[k] == base ==> k in c)
            && (base + size in m && base + size != t.base ==> base + size in c)
            && (t.base + t.size == base ==> forall k :: k in c ==> k + c[k] != base)
            && (t.base + t.size == base ==> base + size != t.base)
            && (base + size == t.base ==> base + size !in c)
  {
    TowardSplits(t, base);
    assert !(t.base < base + size && base < t.base + t.size);
    OverlapBelow(t, base, size);
  }
}
