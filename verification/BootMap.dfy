/**
  The boot mapping of the kernel. The loop runs while the address is below the end of the memory
  the kernel has placed so far, and each table it creates moves that end; it still terminates,
  and leaves every page below the final end mapped to the frame of the same number.
 */
module BootMap {
  import opened Machine
  import opened Paging
  import opened PageAccess
  import opened VmManager
  import Buddy
  import FA = FrameAllocator

  const DIRECTORY := 8196   // bytes of a page directory
  const HEAP_PAGE := KHEAP_START / PAGE
  const HEAP_PAGES := KHEAP_INITIAL / PAGE

  /** While the kernel places its tables, virtual and physical addresses are the same. */
  function Same(x: int): int {
    x
  }

  /** Page `k` is present and backed by frame `f`; its entry lets user mode read it and not write it. */
  ghost predicate Backed<P>(vm: Vm<P>, k: int, f: int) {
    var t := Slot(vm, vm.kernel, k / ENTRIES);
    && t in vm.tables && 0 <= k % ENTRIES < |vm.tables[t]| && 0 <= f
    && vm.tables[t][k % ENTRIES] == Pte(f, true, false, true, false, false)
  }

  ghost predicate Identity<P>(vm: Vm<P>, k: int) {
    Backed(vm, k, k)
  }

  /** If page `k` has a table, its entry there is the blank one. */
  ghost predicate Unmapped<P>(vm: Vm<P>, k: int) {
    var t := Slot(vm, vm.kernel, k / ENTRIES);
    t in vm.tables && 0 <= k % ENTRIES < |vm.tables[t]| ==> vm.tables[t][k % ENTRIES] == BLANK
  }

  /** Table `t` is in some slot of the kernel's directory. */
  ghost predicate Linked<P>(vm: Vm<P>, t: int) {
    exists i :: Slot(vm, vm.kernel, i) == t
  }

  /**
    The kernel's directory is the only one, and its entries are for the supervisor; its tables are all there
    are, lie below the placement address, and no two slots share one.
   */
  ghost predicate TablesOk<P>(vm: Vm<P>, placement: int) {
    && vm.dirs.Keys == {vm.kernel} && DirOk(vm, vm.dirs[vm.kernel])
    && (forall i :: !SlotEntry(vm, vm.kernel, i).user)
    && (forall t :: t in vm.tables ==> Linked(vm, t))
    && (forall t :: t in vm.tables ==> 0 < t < placement && |vm.tables[t]| == ENTRIES)
    && (forall i, i' :: Slot(vm, vm.kernel, i) != 0 && Slot(vm, vm.kernel, i) == Slot(vm, vm.kernel, i') ==> i == i')
  }

  /** The first `m` pages are mapped to the first `m` frames, which are all that is in use; no other page is mapped. */
  ghost predicate Mapped<P>(vm: Vm<P>, m: int) {
    && (forall k :: 0 <= k < m ==> Identity(vm, k))
    && (forall k :: m <= k ==> Unmapped(vm, k))
    && (forall f :: f in vm.held <==> 0 <= f < m)
  }

  /** How many slots are still without a table. */
  function Missing(tables: seq<int>): nat {
    if tables == [] then 0 else (if tables[|tables| - 1] == 0 then 1 else 0) + Missing(tables[..|tables| - 1])
  }

  lemma {:induction false} MissingDrops(tables: seq<int>, i: nat, t: int)
    requires i < |tables| && tables[i] == 0 && t != 0
    ensures Missing(tables[i := t]) == Missing(tables) - 1
    decreases |tables|
  {
    var n := |tables| - 1;
    if i < n {
      MissingDrops(tables[..n], i, t);
      assert tables[i := t][..n] == tables[..n][i := t];
    } else {
      assert tables[i := t][..n] == tables[..n];
    }
  }

  lemma {:induction false} MissingAtMost(tables: seq<int>)
    ensures Missing(tables) <= |tables|
    decreases |tables|
  {
    if tables != [] { MissingAtMost(tables[..|tables| - 1]); }
  }

  /** Creating a table for slot `i` keeps what is mapped. */
  lemma {:induction false} TableCreated<P>(vm: Vm<P>, placement: int, m: int, i: int, addr: int)
    requires TablesOk(vm, placement) && Mapped(vm, m) && 0 <= m && 0 <= i < ENTRIES
    requires placement <= addr && Slot(vm, vm.kernel, i) == 0 && 0 < addr
    ensures var v := EnsureTable(vm, vm.kernel, i, addr, addr);
            && TablesOk(v, addr + PAGE) && Mapped(v, m) && Slot(v, vm.kernel, i) == addr
            && (forall k :: Slot(vm, vm.kernel, k) != 0 ==> Slot(v, vm.kernel, k) != 0)
            && (Agrees(vm, Same) ==> Agrees(v, Same))
  {
    var v := EnsureTable(vm, vm.kernel, i, addr, addr);
    assert addr !in vm.tables;
    forall k ensures Slot(v, v.kernel, k) == if k == i then addr else Slot(vm, vm.kernel, k) {
    }
    forall k ensures !SlotEntry(v, v.kernel, k).user {
      assert !SlotEntry(vm, vm.kernel, k).user;
    }
    forall k ensures Slot(vm, vm.kernel, k) != addr {
    }
    forall t | t in v.tables ensures Linked(v, t) {
      if t == addr {
        assert Slot(v, v.kernel, i) == t;
      } else {
        assert Linked(vm, t);
        var k :| Slot(vm, vm.kernel, k) == t;
        assert Slot(v, v.kernel, k) == t;
      }
    }
    forall k | 0 <= k < m ensures Identity(v, k) {
      assert Identity(vm, k);
    }
    forall k | m <= k ensures Unmapped(v, k) {
      assert Unmapped(vm, k);
    }
  }

  /** Page `k` has a table. */
  ghost predicate HasTable<P>(vm: Vm<P>, k: int) {
    Slot(vm, vm.kernel, k / ENTRIES) != 0
  }

  /** Where the first frames are in use, the lowest that is not follows them. */
  lemma LowestIsNext<P>(vm: Vm<P>, n: nat, f: int)
    requires (forall g :: g in vm.held <==> 0 <= g < n) && 0 <= f && f !in vm.held
    requires forall g :: 0 <= g < f ==> g in vm.held
    ensures f == n
  {
    assert f > n ==> n in vm.held;
  }

  /** Writing the entry of page `k` leaves the tables where they are and the entries of all other pages alone. */
  lemma {:induction false} EntryWritten<P>(vm: Vm<P>, v: Vm<P>, placement: int, k: int)
    requires TablesOk(vm, placement) && HasTable(vm, k) && v.dirs == vm.dirs && v.kernel == vm.kernel
    requires v.tables.Keys == vm.tables.Keys
    requires var t := Slot(vm, vm.kernel, k / ENTRIES);
             && t in vm.tables && |v.tables[t]| == |vm.tables[t]|
             && (forall u :: u in vm.tables && u != t ==> v.tables[u] == vm.tables[u])
             && (forall j :: 0 <= j < ENTRIES && j != k % ENTRIES ==> v.tables[t][j] == vm.tables[t][j])
    ensures TablesOk(v, placement)
    ensures forall l, f :: l != k && Backed(vm, l, f) ==> Backed(v, l, f)
    ensures forall l :: l != k && Unmapped(vm, l) ==> Unmapped(v, l)
  {
    forall i ensures Slot(v, v.kernel, i) == Slot(vm, vm.kernel, i) && !SlotEntry(v, v.kernel, i).user {
      assert !SlotEntry(vm, vm.kernel, i).user;
    }
    forall u | u in v.tables ensures Linked(v, u) {
      assert Linked(vm, u);
      var i :| Slot(vm, vm.kernel, i) == u;
      assert Slot(v, v.kernel, i) == u;
    }
    forall l | l != k ensures Slot(vm, vm.kernel, l / ENTRIES) == Slot(vm, vm.kernel, k / ENTRIES) ==>
                                l % ENTRIES != k % ENTRIES
    {
      SamePage(vm, placement, l, k);
    }
  }

  /** Giving page `m` the lowest free frame gives it frame `m`. */
  lemma {:induction false} PageMapped<P>(vm: Vm<P>, placement: int, m: int)
    requires TablesOk(vm, placement) && Mapped(vm, m) && 0 <= m && m / ENTRIES < ENTRIES
    requires Slot(vm, vm.kernel, m / ENTRIES) != 0
    ensures var t := Slot(vm, vm.kernel, m / ENTRIES);
            t in vm.tables && |vm.tables[t]| == ENTRIES &&
            var r := AllocFrame(vm, t, m % ENTRIES, false, false);
            && (r.None? <==> |vm.mem| <= m)
            && (r.Some? ==> TablesOk(r.value, placement) && Mapped(r.value, m + 1)
                            && r.value.dirs == vm.dirs && r.value.kernel == vm.kernel && |r.value.mem| == |vm.mem|)
  {
    hide LowestFree, AllocFrame;
    var t := Slot(vm, vm.kernel, m / ENTRIES);
    assert Unmapped(vm, m) && m !in vm.held;
    AllocFrameExact(vm, t, m % ENTRIES, false, false);
    var r := AllocFrame(vm, t, m % ENTRIES, false, false);
    if r.Some? {
      var v := r.value;
      LowestIsNext(vm, m, v.tables[t][m % ENTRIES].pfn);
      EntryWritten(vm, v, placement, m);
      forall k | 0 <= k < m + 1 ensures Identity(v, k) {
        if k < m { assert Identity(vm, k); }
      }
      forall k | m + 1 <= k ensures Unmapped(v, k) {
        assert Unmapped(vm, k);
      }
    }
  }

  /** Different pages have different entries. */
  lemma {:induction false} SamePage<P>(vm: Vm<P>, placement: int, k: int, m: int)
    requires TablesOk(vm, placement) && k != m
    requires Slot(vm, vm.kernel, m / ENTRIES) != 0
    ensures Slot(vm, vm.kernel, k / ENTRIES) == Slot(vm, vm.kernel, m / ENTRIES) ==> k % ENTRIES != m % ENTRIES
  {
    assert k == k / ENTRIES * ENTRIES + k % ENTRIES && m == m / ENTRIES * ENTRIES + m % ENTRIES;
  }

  /** Looks page `k` up, creating its table at the placement address if need be. */
  method FindPage<P>(vm: VmManager<P>, placement: int, k: int, ghost m: int) returns (t: int, j: int, placement': int)
    requires vm.Valid() && TablesOk(vm.State(), placement) && Mapped(vm.State(), m) && Agrees(vm.State(), Same)
    requires 0 < placement && placement + PAGE - 1 < WORD && 0 <= m && 0 <= k && k * PAGE < WORD
    modifies vm`tables, vm`dirs
    ensures vm.Valid() && TablesOk(vm.State(), placement') && Mapped(vm.State(), m) && Agrees(vm.State(), Same)
    ensures t == Slot(vm.State(), vm.kernel, k / ENTRIES) != 0 && j == k % ENTRIES && placement <= placement'
    ensures vm.kernel in vm.dirs && vm.kernel in old(vm.dirs)
    ensures forall i :: Slot(old(vm.State()), vm.kernel, i) != 0 ==> Slot(vm.State(), vm.kernel, i) != 0
    ensures placement' + 2 * PAGE * Missing(vm.dirs[vm.kernel].tables) <=
            placement + 2 * PAGE * Missing(old(vm.dirs)[vm.kernel].tables)
  {
    hide TablesOk, Mapped, Missing, Agrees, AlignUp, Buddy.Tracks, FA.FrameAllocator.View;
    ghost var vm0 := vm.State();
    DirOfKernel(vm0, placement);
    var i := k / ENTRIES;
    placement' := placement;
    PageIndex(k);
    AlignUpRounds(placement);
    if vm.dirs[vm.kernel].tables[i] == 0 {
      placement' := AlignUp(placement);
      TableCreated(vm0, placement, m, i, placement');
      MissingDrops(vm.dirs[vm.kernel].tables, i, placement');
      placement' := placement' + PAGE;
    }
    t, j := vm.GetPage(k * PAGE, vm.kernel, true, Place(AlignUp(placement), AlignUp(placement)));
  }

  /** Maps page `m` of the kernel's directory to the lowest free frame, which is frame `m`. */
  method MapOne<P>(vm: VmManager<P>, placement: int, m: int) returns (ok: bool, placement': int)
    requires vm.Valid() && TablesOk(vm.State(), placement) && Mapped(vm.State(), m) && Agrees(vm.State(), Same)
    requires 0 < placement && placement + PAGE - 1 < WORD && 0 <= m && m * PAGE < WORD
    modifies vm`tables, vm`dirs, vm`held, vm.frames.bitmaps
    ensures vm.Valid() && vm.kernel == old(vm.kernel) && vm.mem == old(vm.mem)
    ensures ok <==> m < |vm.mem|
    ensures ok ==> TablesOk(vm.State(), placement') && Mapped(vm.State(), m + 1) && Agrees(vm.State(), Same)
    ensures placement <= placement'
    ensures vm.kernel in vm.dirs && vm.kernel in old(vm.dirs)
    ensures ok ==> forall i :: Slot(old(vm.State()), vm.kernel, i) != 0 ==> Slot(vm.State(), vm.kernel, i) != 0
    ensures ok ==> placement' + 2 * PAGE * Missing(vm.dirs[vm.kernel].tables) <=
                   placement + 2 * PAGE * Missing(old(vm.dirs)[vm.kernel].tables)
  {
    hide TablesOk, Mapped, Missing, AllocFrame, LowestFree, Buddy.Tracks, FA.FrameAllocator.View;
    var t, j;
    t, j, placement' := FindPage(vm, placement, m, m);
    PageIndex(m);
    PageMapped(vm.State(), placement', m);
    ok := vm.AllocPage(t, j, false, false);
  }

  /** The two indices of the address of page `m`. */
  lemma PageIndex(m: int)
    requires 0 <= m && m * PAGE < WORD
    ensures m * PAGE / SPAN == m / ENTRIES < ENTRIES && m * PAGE / PAGE % ENTRIES == m % ENTRIES
  {
  }

  lemma {:induction false} DirOfKernel<P>(vm: Vm<P>, placement: int)
    requires TablesOk(vm, placement)
    ensures vm.kernel in vm.dirs && DirOk(vm, vm.dirs[vm.kernel])
  {
  }

  /**
    The two mapping loops: first up to the end of what the kernel has placed, a bound that the
    loop itself keeps raising, then up to the end of the initial RAM disk. Without a shortage of
    frames every page below the final address is mapped to the frame of its own number, and that
    address is beyond both ends; `bound` is the end the first loop ran up to. The result satisfies
    the paging invariant.
   */
  method MapKernel<P>(vm: VmManager<P>, placement0: int, initrdEnd: int) returns (ok: bool, placement: int,
                      top: int, ghost bound: int)
    requires vm.Valid() && TablesOk(vm.State(), placement0) && Mapped(vm.State(), 0) && Agrees(vm.State(), Same)
    requires vm.kernel in vm.dirs && 0 < placement0 && 0 <= initrdEnd < WORD - 2 * PAGE
    requires placement0 + 2 * PAGE * Missing(vm.dirs[vm.kernel].tables) + 2 * PAGE < WORD
    modifies vm`tables, vm`dirs, vm`held, vm.frames.bitmaps
    ensures vm.Valid() && vm.kernel == old(vm.kernel) && vm.mem == old(vm.mem)
    ensures ok ==> TablesOk(vm.State(), placement) && Inv(vm.State()) && Agrees(vm.State(), Same)
    ensures ok ==> top % PAGE == 0 && placement0 <= bound <= placement
    ensures ok ==> bound + PAGE <= top && initrdEnd + PAGE <= top
    ensures ok ==> Mapped(vm.State(), top / PAGE) && top / PAGE <= |vm.mem|
    ensures ok ==> top < initrdEnd + 2 * PAGE ||
                   top < placement0 + 2 * PAGE * Missing(old(vm.dirs)[vm.kernel].tables) + 2 * PAGE
    ensures ok && HasTable(old(vm.State()), HEAP_PAGE) ==> HasTable(vm.State(), HEAP_PAGE)
    ensures initrdEnd + 2 * PAGE <= |vm.mem| * PAGE ==>
              (placement0 + 2 * PAGE * Missing(old(vm.dirs)[vm.kernel].tables) + 2 * PAGE <= |vm.mem| * PAGE ==> ok)
  {
    hide TablesOk, Mapped, Missing, Identity, Agrees, Inv, Buddy.Tracks, FA.FrameAllocator.View, VmManager.Valid;
    ghost var room := placement0 + 2 * PAGE * Missing(vm.dirs[vm.kernel].tables);
    var vaddr := 0;
    placement := placement0;
    ok := true;
    ghost var m := 0;
    while vaddr < placement + PAGE
      invariant 0 <= m && vaddr == m * PAGE && vaddr < placement + 2 * PAGE && placement0 <= placement
      invariant vm.Valid() && TablesOk(vm.State(), placement) && Mapped(vm.State(), m) && Agrees(vm.State(), Same)
      invariant vm.kernel == old(vm.kernel) && vm.kernel in vm.dirs && vm.mem == old(vm.mem)
      invariant (m == 0 || m <= |vm.mem|)
      invariant placement + 2 * PAGE * Missing(vm.dirs[vm.kernel].tables) <= room
      invariant HasTable(old(vm.State()), HEAP_PAGE) ==> HasTable(vm.State(), HEAP_PAGE)
      decreases placement + PAGE - vaddr + 2 * PAGE * Missing(vm.dirs[vm.kernel].tables)
    {
      ok, placement := MapOne(vm, placement, vaddr / PAGE);
      if !ok {
        return false, placement, vaddr, placement;
      }
      vaddr := vaddr + PAGE;
      m := m + 1;
    }
    bound := placement;
    while vaddr < initrdEnd + PAGE
      invariant 0 <= m && vaddr == m * PAGE && vaddr < WORD && placement0 <= bound <= placement && bound + PAGE <= vaddr
      invariant vaddr < initrdEnd + 2 * PAGE || vaddr < room + 2 * PAGE
      invariant vm.Valid() && TablesOk(vm.State(), placement) && Mapped(vm.State(), m) && Agrees(vm.State(), Same)
      invariant vm.kernel == old(vm.kernel) && vm.kernel in vm.dirs && vm.mem == old(vm.mem) && 1 <= m <= |vm.mem|
      invariant placement + 2 * PAGE * Missing(vm.dirs[vm.kernel].tables) <= room
      invariant HasTable(old(vm.State()), HEAP_PAGE) ==> HasTable(vm.State(), HEAP_PAGE)
      decreases initrdEnd + PAGE - vaddr
    {
      ok, placement := MapOne(vm, placement, vaddr / PAGE);
      if !ok {
        return false, placement, vaddr, placement;
      }
      vaddr := vaddr + PAGE;
      m := m + 1;
    }
    top := vaddr;
    BootedInv(vm.State(), placement, m);
  }

  /** The only entries that are not blank are those of the first `m` pages, each with its own frame. */
  lemma {:induction false} NotBlank<P>(vm: Vm<P>, placement: int, m: int, t: int, j: int)
    requires TablesOk(vm, placement) && Mapped(vm, m) && t in vm.tables && 0 <= j < ENTRIES
    requires vm.tables[t][j] != BLANK
    ensures IsPage(vm, m, t, j)
  {
    assert Linked(vm, t);
    var i :| Slot(vm, vm.kernel, i) == t;
    var k := i * ENTRIES + j;
    assert k / ENTRIES == i && k % ENTRIES == j;
    assert k < m ==> Identity(vm, k);
    assert m <= k ==> Unmapped(vm, k);
  }

  /** Entry `j` of table `t` is the entry of one of the first `m` pages, namely of the one its frame names. */
  ghost predicate IsPage<P>(vm: Vm<P>, m: int, t: int, j: int)
    requires t in vm.tables && 0 <= j < |vm.tables[t]|
  {
    var k := vm.tables[t][j].pfn;
    0 <= k < m && t == Slot(vm, vm.kernel, k / ENTRIES) && j == k % ENTRIES && Identity(vm, k)
  }

  /** The only page that can have frame `f` is page `f`. */
  lemma {:induction false} FrameIsPage<P>(vm: Vm<P>, placement: int, m: int, t: int, j: int)
    requires TablesOk(vm, placement) && Mapped(vm, m) && Frame(vm.tables, t, j) != 0
    ensures 0 < Frame(vm.tables, t, j) < m
    ensures t == Slot(vm, vm.kernel, Frame(vm.tables, t, j) / ENTRIES) && j == Frame(vm.tables, t, j) % ENTRIES
  {
    NotBlank(vm, placement, m, t, j);
  }

  /** The mapping loops leave a state from which the guarantees about whole runs apply. */
  lemma {:induction false} BootedInv<P>(vm: Vm<P>, placement: int, m: int)
    requires TablesOk(vm, placement) && Mapped(vm, m) && 1 <= m <= |vm.mem|
    ensures Inv(vm)
  {
    forall t, j, t', j' | Frame(vm.tables, t, j) != 0 && Frame(vm.tables, t, j) == Frame(vm.tables, t', j')
      ensures t == t' && j == j'
    {
      FrameIsPage(vm, placement, m, t, j);
      FrameIsPage(vm, placement, m, t', j');
    }
    forall t, j | Frame(vm.tables, t, j) != 0 ensures Frame(vm.tables, t, j) in vm.held {
      FrameIsPage(vm, placement, m, t, j);
    }
    assert forall d, i :: Slot(vm, d, i) != 0 ==> d == vm.kernel;
  }

  // ---------------------------------------------------------------- frames for the heap

  /** The first page that gets its frame as a page of the heap, when the first `m` pages have theirs. */
  function FirstOfHeap(m: int): int {
    if m < HEAP_PAGE then HEAP_PAGE else m
  }

  /** How many pages before page `p` got their frames that way. */
  function HeapCount(m: int, p: int): int {
    if p < FirstOfHeap(m) then 0 else p - FirstOfHeap(m)
  }

  /** Page `k` is one of the pages that have frames. */
  predicate Meant(k: int, m: int, p: int) {
    0 <= k < m || FirstOfHeap(m) <= k < p
  }

  /**
    The first `m` pages are mapped to the frames of their own numbers, the heap's pages before page `p` that
    are not among them to the frames that follow, in order, and no other page is mapped.
   */
  ghost predicate WithHeap<P>(vm: Vm<P>, m: int, p: int) {
    && (forall k :: 0 <= k < m ==> Identity(vm, k))
    && (forall k :: FirstOfHeap(m) <= k < p ==> HeapBacked(vm, m, k))
    && (forall k :: 0 <= k && !Meant(k, m, p) ==> Unmapped(vm, k))
    && (forall f :: f in vm.held <==> 0 <= f < m + HeapCount(m, p))
  }

  /** Page `k` of the heap has the frame as many places after the first `m` as pages got frames before it. */
  ghost predicate HeapBacked<P>(vm: Vm<P>, m: int, k: int) {
    Backed(vm, k, m + (k - FirstOfHeap(m)))
  }

  /** Giving a heap page that has none the lowest free frame gives it the frame that follows. */
  lemma {:induction false} HeapPageMapped<P>(vm: Vm<P>, placement: int, m: int, p: int)
    requires TablesOk(vm, placement) && WithHeap(vm, m, p) && 0 <= m && FirstOfHeap(m) <= p
    requires HasTable(vm, p)
    ensures var t := Slot(vm, vm.kernel, p / ENTRIES);
            t in vm.tables && |vm.tables[t]| == ENTRIES &&
            var r := AllocFrame(vm, t, p % ENTRIES, false, false);
            r.Some? ==> TablesOk(r.value, placement) && WithHeap(r.value, m, p + 1)
  {
    hide LowestFree, AllocFrame;
    var t, j := Slot(vm, vm.kernel, p / ENTRIES), p % ENTRIES;
    assert Unmapped(vm, p);
    AllocFrameExact(vm, t, j, false, false);
    var r := AllocFrame(vm, t, j, false, false);
    if r.Some? {
      var v := r.value;
      LowestIsNext(vm, m + HeapCount(m, p), v.tables[t][j].pfn);
      EntryWritten(vm, v, placement, p);
      assert HeapBacked(v, m, p);
      hide Backed, Unmapped;
      forall k | 0 <= k < m ensures Identity(v, k) {
        assert Identity(vm, k);
      }
      forall k | FirstOfHeap(m) <= k < p + 1 ensures HeapBacked(v, m, k) {
        assert k < p ==> HeapBacked(vm, m, k);
      }
      forall k | 0 <= k && !Meant(k, m, p + 1) ensures Unmapped(v, k) {
        assert !Meant(k, m, p) && Unmapped(vm, k);
      }
    }
  }

  /** A heap page among the first `m` keeps what it has. */
  lemma {:induction false} HeapPageKept<P>(vm: Vm<P>, placement: int, m: int, p: int)
    requires TablesOk(vm, placement) && WithHeap(vm, m, p) && HEAP_PAGE <= p < m
    ensures var t := Slot(vm, vm.kernel, p / ENTRIES);
            t in vm.tables && |vm.tables[t]| == ENTRIES &&
            AllocFrame(vm, t, p % ENTRIES, false, false) == Some(vm) && WithHeap(vm, m, p + 1)
  {
    assert Identity(vm, p);
    forall k | 0 <= k && !Meant(k, m, p + 1) ensures Unmapped(vm, k) {
      assert !Meant(k, m, p);
    }
  }

  /** The next page of the heap, whether or not it has a frame. */
  lemma {:induction false} HeapStep<P>(vm: Vm<P>, placement: int, m: int, p: int)
    requires Inv(vm) && Agrees(vm, Same) && HEAP_PAGE <= p && 0 <= m && HasTable(vm, p)
    requires TablesOk(vm, placement) && WithHeap(vm, m, p)
    ensures var t := Slot(vm, vm.kernel, p / ENTRIES);
            t in vm.tables && |vm.tables[t]| == ENTRIES &&
            var r := AllocFrame(vm, t, p % ENTRIES, false, false);
            && (m + HeapCount(m, p) < |vm.mem| ==> r.Some?)
            && (r.Some? ==>
                  && Inv(r.value) && Agrees(r.value, Same) && r.value.dirs == vm.dirs
                  && TablesOk(r.value, placement) && WithHeap(r.value, m, p + 1))
  {
    hide LowestFree, AllocFrame, TablesOk, Unique, AllHeld, Unmapped, Backed;
    if p < m {
      HeapPageKept(vm, placement, m, p);
    } else {
      HeapPageMapped(vm, placement, m, p);
    }
    var t := Slot(vm, vm.kernel, p / ENTRIES);
    AllocFrameExact(vm, t, p % ENTRIES, false, false);
    AllocFrameOk(vm, t, p % ENTRIES, false, false);
    assert m + HeapCount(m, p) !in vm.held;
    var r := AllocFrame(vm, t, p % ENTRIES, false, false);
    if r.Some? { EntryChangeOk(vm, r.value); }
  }

  /** Gives the pages of the heap their frames; their tables are there already. */
  method MapHeapFrames<P>(vm: VmManager<P>, placement: int, ghost m: int) returns (ok: bool)
    requires vm.Valid() && Inv(vm.State()) && Agrees(vm.State(), Same) && HasTable(vm.State(), HEAP_PAGE)
    requires 1 <= m && TablesOk(vm.State(), placement) && Mapped(vm.State(), m)
    modifies vm`tables, vm`dirs, vm`held, vm.frames.bitmaps
    ensures vm.Valid() && vm.kernel == old(vm.kernel) && vm.mem == old(vm.mem)
    ensures m + HEAP_PAGES <= |vm.mem| ==> ok
    ensures ok ==> Inv(vm.State()) && Agrees(vm.State(), Same)
    ensures ok ==> TablesOk(vm.State(), placement) && WithHeap(vm.State(), m, HEAP_PAGE + HEAP_PAGES)
  {
    hide TablesOk, WithHeap, Agrees, Inv, AllocFrame, AlignUp, Buddy.Tracks, FA.FrameAllocator.View, VmManager.Valid;
    ok := true;
    var vaddr := KHEAP_START;
    ghost var p := HEAP_PAGE;
    StartHeap(vm.State(), m);
    while vaddr < KHEAP_START + KHEAP_INITIAL
      invariant HEAP_PAGE <= p <= HEAP_PAGE + HEAP_PAGES && vaddr == p * PAGE
      invariant vm.Valid() && Inv(vm.State()) && Agrees(vm.State(), Same) && HasTable(vm.State(), HEAP_PAGE)
      invariant vm.kernel == old(vm.kernel) && vm.mem == old(vm.mem)
      invariant TablesOk(vm.State(), placement) && WithHeap(vm.State(), m, p)
    {
      PageIndex(p);
      SameTable(p);
      HeapStep(vm.State(), placement, m, p);
      DirOfInv(vm.State());
      var t, j := vm.GetPage(vaddr, vm.kernel, true, Place(AlignUp(placement), AlignUp(placement)));
      ok := vm.AllocPage(t, j, false, false);
      if !ok {
        return;
      }
      vaddr := vaddr + PAGE;
      p := p + 1;
    }
  }

  lemma DirOfInv<P>(vm: Vm<P>)
    requires Inv(vm)
    ensures vm.kernel in vm.dirs && DirOk(vm, vm.dirs[vm.kernel])
  {
  }

  /** All pages of the heap are in one table. */
  lemma SameTable(p: int)
    requires HEAP_PAGE <= p < HEAP_PAGE + HEAP_PAGES
    ensures p / ENTRIES == HEAP_PAGE / ENTRIES
  {
  }

  lemma StartHeap<P>(vm: Vm<P>, m: int)
    requires Mapped(vm, m)
    ensures WithHeap(vm, m, HEAP_PAGE)
  {
  }

  // ---------------------------------------------------------------- before the loops

  /** The kernel's directory, placed at the next page boundary, with no tables yet. */
  method NewKernelDirectory<P>(vm: VmManager<P>, placement0: int) returns (placement: int)
    requires vm.Valid() && vm.tables == map[] && vm.dirs == map[] && vm.held == {}
    requires 0 < placement0 && placement0 + PAGE - 1 < WORD
    modifies vm`dirs, vm`kernel
    ensures vm.Valid() && TablesOk(vm.State(), placement) && Mapped(vm.State(), 0) && Agrees(vm.State(), Same)
    ensures vm.kernel == AlignUp(placement0) && placement == vm.kernel + DIRECTORY
    ensures placement0 <= placement < placement0 + PAGE + DIRECTORY
  {
    hide AlignUp, TablesOk, Mapped, Agrees, Buddy.Tracks, FA.FrameAllocator.View, FA.FrameAllocator.Valid;
    AlignUpRounds(placement0);
    var entries: seq<Pde> := [];
    while |entries| < ENTRIES
      invariant |entries| <= ENTRIES && forall i :: 0 <= i < |entries| ==> entries[i] == NO_TABLE
      decreases ENTRIES - |entries|
    {
      entries := entries + [NO_TABLE];
    }
    vm.kernel := AlignUp(placement0);
    vm.dirs := map[vm.kernel := Dir(seq(ENTRIES, _ => 0), entries)];
    placement := vm.kernel + DIRECTORY;
    EmptyDirectory(vm.State(), placement);
  }

  lemma {:induction false} EmptyDirectory<P>(vm: Vm<P>, placement: int)
    requires vm.tables == map[] && vm.dirs.Keys == {vm.kernel} && vm.held == {}
    requires var dir := vm.dirs[vm.kernel];
             && |dir.tables| == |dir.entries| == ENTRIES
             && forall i :: 0 <= i < ENTRIES ==> dir.tables[i] == 0 && dir.entries[i] == NO_TABLE
    ensures TablesOk(vm, placement) && Mapped(vm, 0) && Agrees(vm, Same)
  {
    assert forall i :: Slot(vm, vm.kernel, i) == 0;
    forall k ensures Unmapped(vm, k) {
    }
  }

  /** Creates the tables of the heap's pages, without any frames behind them. */
  method MapHeap<P>(vm: VmManager<P>, placement0: int) returns (placement: int)
    requires vm.Valid() && TablesOk(vm.State(), placement0) && Mapped(vm.State(), 0) && Agrees(vm.State(), Same)
    requires vm.kernel in vm.dirs && 0 < placement0
    requires placement0 + 2 * PAGE * Missing(vm.dirs[vm.kernel].tables) + PAGE - 1 < WORD
    modifies vm`tables, vm`dirs
    ensures vm.Valid() && TablesOk(vm.State(), placement) && Mapped(vm.State(), 0) && Agrees(vm.State(), Same)
    ensures vm.kernel in vm.dirs && placement0 <= placement
    ensures placement + 2 * PAGE * Missing(vm.dirs[vm.kernel].tables) <=
            placement0 + 2 * PAGE * Missing(old(vm.dirs)[vm.kernel].tables)
    ensures forall vaddr :: KHEAP_START <= vaddr < KHEAP_START + KHEAP_INITIAL ==>
              Slot(vm.State(), vm.kernel, vaddr / SPAN) != 0
  {
    hide TablesOk, Mapped, Missing, Agrees, VmManager.Valid;
    placement := placement0;
    var vaddr := KHEAP_START;
    ghost var k := KHEAP_START / PAGE;
    while vaddr < KHEAP_START + KHEAP_INITIAL
      invariant vaddr == k * PAGE && KHEAP_START <= vaddr <= KHEAP_START + KHEAP_INITIAL && placement0 <= placement
      invariant vm.Valid() && TablesOk(vm.State(), placement) && Mapped(vm.State(), 0) && Agrees(vm.State(), Same)
      invariant vm.kernel in vm.dirs && vm.kernel in old(vm.dirs)
      invariant placement + 2 * PAGE * Missing(vm.dirs[vm.kernel].tables) <=
                placement0 + 2 * PAGE * Missing(old(vm.dirs)[vm.kernel].tables)
      invariant vaddr > KHEAP_START ==> Slot(vm.State(), vm.kernel, KHEAP_START / SPAN) != 0
      decreases KHEAP_START + KHEAP_INITIAL - vaddr
    {
      var t, j;
      t, j, placement := FindPage(vm, placement, vaddr / PAGE, 0);
      assert vaddr / PAGE / ENTRIES == KHEAP_START / SPAN;
      vaddr := vaddr + PAGE;
      k := k + 1;
    }
    forall a | KHEAP_START <= a < KHEAP_START + KHEAP_INITIAL ensures a / SPAN == KHEAP_START / SPAN {
    }
  }

  lemma OutOfReach<P>(vm: Vm<P>, placement: int)
    requires TablesOk(vm, placement)
    ensures forall d, i, j :: !UserReads(vm, d, i, j)
  {
  }

  /** But for the pages that have frames, no entry of any table is present, and each holds the writable flag alone. */
  ghost predicate OthersBlank<P>(vm: Vm<P>, m: int, p: int) {
    forall t, j :: t in vm.tables && 0 <= j < |vm.tables[t]| &&
                   vm.tables[t][j] != Pte(0, false, true, false, false, false) ==>
      exists k :: Meant(k, m, p) && t == Slot(vm, vm.kernel, k / ENTRIES) && j == k % ENTRIES
  }

  lemma {:induction false} OnlyMapped<P>(vm: Vm<P>, placement: int, m: int, p: int)
    requires TablesOk(vm, placement) && WithHeap(vm, m, p)
    ensures OthersBlank(vm, m, p)
  {
    forall t, j | t in vm.tables && 0 <= j < |vm.tables[t]| && vm.tables[t][j] != BLANK
      ensures exists k :: Meant(k, m, p) && t == Slot(vm, vm.kernel, k / ENTRIES) && j == k % ENTRIES
    {
      assert Linked(vm, t);
      var i :| Slot(vm, vm.kernel, i) == t;
      var k := i * ENTRIES + j;
      assert k / ENTRIES == i && k % ENTRIES == j;
      assert !Unmapped(vm, k);
      assert Meant(k, m, p);
    }
  }

  /**
    From nothing to the mapped kernel. If memory suffices it succeeds, and then the paging invariant
    holds, and the processor sees what the kernel set up; every page below `top` shows the frame of its own
    number, the heap's other pages show the frames that follow, the entries of all of them let user mode
    read and not write, and no other entry of any table maps anything. As every directory entry is for the
    supervisor, user mode can in the end read no page at all.
   */
  method Boot<P>(frames: FA.FrameAllocator, mem: seq<P>, placement0: int, initrdEnd: int)
    returns (vm: VmManager<P>, ok: bool, top: int)
    requires frames.Valid() && |mem| == |frames.View()[0]| && forall f :: 0 <= f < |mem| ==> frames.View()[0][f]
    requires 0 < placement0 && 0 <= initrdEnd < WORD - 2 * PAGE
    requires placement0 + DIRECTORY + 2 * PAGE * ENTRIES + 3 * PAGE < WORD
    modifies frames.bitmaps
    ensures ok ==> vm.Valid() && Inv(vm.State()) && Agrees(vm.State(), Same)
    ensures ok ==> placement0 + PAGE <= top && initrdEnd + PAGE <= top && top % PAGE == 0
    ensures ok ==> WithHeap(vm.State(), top / PAGE, HEAP_PAGE + HEAP_PAGES)
    ensures ok ==> OthersBlank(vm.State(), top / PAGE, HEAP_PAGE + HEAP_PAGES)
    ensures ok ==> forall d, i, j :: !UserReads(vm.State(), d, i, j)
    ensures placement0 + DIRECTORY + 2 * PAGE * ENTRIES + 3 * PAGE + KHEAP_INITIAL <= |mem| * PAGE ==>
              (initrdEnd + 2 * PAGE + KHEAP_INITIAL <= |mem| * PAGE ==> ok)
  {
    hide TablesOk, Mapped, Missing, Agrees, Backed, Inv, AlignUp, VmManager.Valid, FA.FrameAllocator.View, WithHeap;
    hide FA.FrameAllocator.Valid;
    vm := new VmManager(frames, mem);
    var placement := NewKernelDirectory(vm, placement0);
    DirOfKernel(vm.State(), placement);
    MissingAtMost(vm.dirs[vm.kernel].tables);
    placement := MapHeap(vm, placement);
    assert Slot(vm.State(), vm.kernel, KHEAP_START / SPAN) != 0;
    ghost var bound;
    ok, placement, top, bound := MapKernel(vm, placement, initrdEnd);
    if !ok {
      return;
    }
    ok := MapHeapFrames(vm, placement, top / PAGE);
    if ok {
      OnlyMapped(vm.State(), placement, top / PAGE, HEAP_PAGE + HEAP_PAGES);
      OutOfReach(vm.State(), placement);
    }
  }

  /** What boot leaves agrees with any later view of physical memory that leaves its tables in place. */
  lemma {:induction false} BootedAgrees<P>(vm: Vm<P>, phys: int -> int)
    requires Agrees(vm, Same) && forall d :: d in vm.dirs ==> DirOk(vm, vm.dirs[d])
    requires forall t :: t in vm.tables ==> phys(t) == t
    ensures Agrees(vm, phys)
  {
    forall d | d in vm.dirs ensures DirAgrees(vm.dirs[d], phys) {
      assert DirAgrees(vm.dirs[d], Same) && DirOk(vm, vm.dirs[d]);
    }
  }
}
