/**
  Two-level page tables in the format of section 4.3 of the Intel SDM, Volume 3A, as the kernel
  builds them: tables and directories live at kernel addresses and refer to each other by
  address, so a table can be linked into several directories.
 */
module Paging {

  const ENTRIES := 1024
  const SPAN := 0x40_0000   // bytes behind one table

  /** A page table entry; its packed form is `pfn << 12` with the flags below. */
  datatype Pte = Pte(pfn: nat, present: bool, rw: bool, user: bool, accessed: bool, dirty: bool)

  const CLEAR := Pte(0, false, false, false, false, false)
  const BLANK := Pte(0, false, true, false, false, false)

  /** A directory entry: the physical address of a table and its flags. */
  datatype Pde = Pde(paddr: int, present: bool, rw: bool, user: bool)

  const NO_TABLE := Pde(0, false, true, false)

  /** `tables[i]` is the address of table `i`, 0 for none; `entries[i]` is what the processor reads. */
  datatype Dir = Dir(tables: seq<int>, entries: seq<Pde>)

  type Tables = map<int, seq<Pte>>

  /** Everything in memory that matters here; `held` are the frames handed out, `mem` the contents of all frames. */
  datatype Vm<Page> = Vm(tables: Tables, dirs: map<int, Dir>, kernel: int, held: set<int>, mem: seq<Page>)

  datatype Option<T> = None | Some(value: T)

  // ---------------------------------------------------------------- frames

  /** The lowest frame not handed out, or -1: what the frame allocator answers for one frame. */
  function LowestFree(held: set<int>, from: nat, n: nat): (r: int)
    ensures r == -1 || from <= r < n
    ensures r != -1 ==> r !in held && forall f :: from <= f < r ==> f in held
    ensures r == -1 ==> forall f :: from <= f < n ==> f in held
    decreases n - from
  {
    if from >= n then -1 else if from !in held then from else LowestFree(held, from + 1, n)
  }

  function SetEntry<Page>(vm: Vm<Page>, t: int, j: int, e: Pte): Vm<Page>
    requires t in vm.tables && 0 <= j < |vm.tables[t]|
  {
    vm.(tables := vm.tables[t := vm.tables[t][j := e]])
  }

  /** Gives a page a frame unless it has one; no free frame is a panic. */
  function AllocFrame<Page>(vm: Vm<Page>, t: int, j: int, kernel: bool, writable: bool): Option<Vm<Page>>
    requires t in vm.tables && 0 <= j < |vm.tables[t]|
  {
    if vm.tables[t][j].pfn != 0 then Some(vm)
    else
      var r := LowestFree(vm.held, 0, |vm.mem|);
      if r == -1 then None
      else Some(SetEntry(vm, t, j, Pte(r, true, writable, !kernel, false, false)).(held := vm.held + {r}))
  }

  /** Takes the frame of a page back; only the writable flag stays. */
  function FreeFrame<Page>(vm: Vm<Page>, t: int, j: int): Vm<Page>
    requires t in vm.tables && 0 <= j < |vm.tables[t]|
  {
    var e := vm.tables[t][j];
    if e.pfn == 0 then vm
    else SetEntry(vm, t, j, CLEAR.(rw := e.rw)).(held := vm.held - {e.pfn})
  }

  // ---------------------------------------------------------------- tables and directories

  function BlankTable(): seq<Pte> {
    seq(ENTRIES, _ => BLANK)
  }

  /** Makes sure directory `d` has table `i`, creating it at `addr` if need be. */
  function EnsureTable<Page>(vm: Vm<Page>, d: int, i: int, addr: int, paddr: int): Vm<Page>
    requires d in vm.dirs && 0 <= i < |vm.dirs[d].tables| == |vm.dirs[d].entries|
  {
    var dir := vm.dirs[d];
    if dir.tables[i] != 0 then vm
    else vm.(tables := vm.tables[addr := BlankTable()],
             dirs := vm.dirs[d := Dir(dir.tables[i := addr], dir.entries[i := Pde(paddr, true, true, false)])])
  }

  /** Copies one entry: a new frame with the same contents and flags; a page without a frame stays blank. */
  function CloneEntry<Page>(vm: Vm<Page>, src: int, dst: int, j: int): Option<Vm<Page>>
    requires src in vm.tables && dst in vm.tables && 0 <= j < |vm.tables[src]| == |vm.tables[dst]|
  {
    var e := vm.tables[src][j];
    if e.pfn == 0 then Some(SetEntry(vm, dst, j, BLANK))
    else
      match AllocFrame(vm, dst, j, false, false)
      case None => None
      case Some(v) =>
        var f := v.tables[dst][j];
        var v1 := SetEntry(v, dst, j, Pte(f.pfn, f.present || e.present, f.rw || e.rw, f.user || e.user,
                                          f.accessed || e.accessed, f.dirty || e.dirty));
        Some(if f.pfn < |v1.mem| && e.pfn < |v1.mem| then v1.(mem := v1.mem[f.pfn := v1.mem[e.pfn]]) else v1)
  }

  /** Copies the entries from `j` on. */
  function CloneEntries<Page>(vm: Vm<Page>, src: int, dst: int, j: nat): Option<Vm<Page>>
    requires src in vm.tables && dst in vm.tables && |vm.tables[src]| == |vm.tables[dst]| == ENTRIES && src != dst
    decreases ENTRIES - j
  {
    if j >= ENTRIES then Some(vm)
    else
      match CloneEntry(vm, src, dst, j)
      case None => None
      case Some(v) => CloneEntries(v, src, dst, j + 1)
  }

  /** A copy of table `src` at address `dst`. */
  function CloneTable<Page>(vm: Vm<Page>, src: int, dst: int): Option<Vm<Page>>
    requires src in vm.tables && |vm.tables[src]| == ENTRIES && src != dst
  {
    CloneEntries(vm.(tables := vm.tables[dst := EmptyTable()]), src, dst, 0)
  }

  /** Where a new table goes. */
  datatype Place = Place(addr: int, paddr: int)

  function SetSlot<Page>(vm: Vm<Page>, d: int, i: int, table: int, entry: Pde): Vm<Page>
    requires d in vm.dirs && 0 <= i < |vm.dirs[d].tables| == |vm.dirs[d].entries|
  {
    vm.(dirs := vm.dirs[d := Dir(vm.dirs[d].tables[i := table], vm.dirs[d].entries[i := entry])])
  }

  /** The pointers the cloning of slot `i` follows lead somewhere. */
  predicate Followable<Page>(vm: Vm<Page>, src: int, dst: int, places: seq<Place>, i: nat) {
    && src in vm.dirs && dst in vm.dirs && vm.kernel in vm.dirs && i < |places|
    && i < |vm.dirs[src].tables| == |vm.dirs[src].entries|
    && i < |vm.dirs[dst].tables| == |vm.dirs[dst].entries|
    && i < |vm.dirs[vm.kernel].tables|
    && var s := vm.dirs[src].tables[i];
       s != 0 ==> s in vm.tables && |vm.tables[s]| == ENTRIES && s != places[i].addr
  }

  /** Slot `i` of a cloned directory: nothing, the kernel's own table, or a copy. */
  function CloneSlot<Page>(vm: Vm<Page>, src: int, dst: int, places: seq<Place>, i: nat): Option<Vm<Page>>
    requires Followable(vm, src, dst, places, i)
  {
    var s := vm.dirs[src].tables[i];
    if s == 0 then Some(SetSlot(vm, dst, i, vm.dirs[dst].tables[i], NO_TABLE))
    else if s == vm.dirs[vm.kernel].tables[i] then Some(SetSlot(vm, dst, i, s, vm.dirs[src].entries[i]))
    else
      match CloneTable(vm, s, places[i].addr)
      case None => None
      case Some(v) =>
        if dst in v.dirs && i < |v.dirs[dst].tables| == |v.dirs[dst].entries|
        then Some(SetSlot(v, dst, i, places[i].addr, Pde(places[i].paddr, true, true, true)))
        else None
  }

  function CloneSlots<Page>(vm: Vm<Page>, src: int, dst: int, places: seq<Place>, i: nat): Option<Vm<Page>>
    decreases ENTRIES - i
  {
    if i >= ENTRIES then Some(vm)
    else if !Followable(vm, src, dst, places, i) then None
    else
      match CloneSlot(vm, src, dst, places, i)
      case None => None
      case Some(v) => CloneSlots(v, src, dst, places, i + 1)
  }

  /** A directory of zeroed memory. */
  function EmptyDir(): Dir {
    Dir(seq(ENTRIES, _ => 0), seq(ENTRIES, _ => Pde(0, false, false, false)))
  }

  /** A table of zeroed memory. */
  function EmptyTable(): seq<Pte> {
    seq(ENTRIES, _ => CLEAR)
  }

  /** A copy of directory `src` at address `dst`. */
  function CloneDir<Page>(vm: Vm<Page>, src: int, dst: int, places: seq<Place>): Option<Vm<Page>> {
    CloneSlots(vm.(dirs := vm.dirs[dst := EmptyDir()]), src, dst, places, 0)
  }

  // ---------------------------------------------------------------- the invariant

  /** The frame behind entry `j` of table `t`, 0 for none. */
  function Frame(tables: Tables, t: int, j: int): int {
    if t in tables && 0 <= j < |tables[t]| then tables[t][j].pfn else 0
  }

  /** No frame but frame 0 is behind two entries. */
  ghost predicate Unique(tables: Tables) {
    forall t, j, t', j' :: Frame(tables, t, j) != 0 && Frame(tables, t, j) == Frame(tables, t', j') ==>
      t == t' && j == j'
  }

  /** Every frame behind an entry has been handed out. */
  ghost predicate AllHeld(tables: Tables, held: set<int>) {
    forall t, j :: Frame(tables, t, j) != 0 ==> Frame(tables, t, j) in held
  }

  ghost predicate FramesOk<Page>(vm: Vm<Page>) {
    && Unique(vm.tables)
    && AllHeld(vm.tables, vm.held)
    && 0 in vm.held
    && (forall f :: f in vm.held ==> 0 <= f < |vm.mem|)
    && (forall t :: t in vm.tables ==> |vm.tables[t]| == ENTRIES && t != 0)
  }

  /** A slot refers to nothing or to an existing table. */
  ghost predicate DirOk<Page>(vm: Vm<Page>, dir: Dir) {
    && |dir.tables| == |dir.entries| == ENTRIES
    && forall i :: 0 <= i < ENTRIES ==> dir.tables[i] == 0 || dir.tables[i] in vm.tables
  }

  /** The table in slot `i` of directory `d`, 0 for none. */
  function Slot<Page>(vm: Vm<Page>, d: int, i: int): int {
    if d in vm.dirs && 0 <= i < |vm.dirs[d].tables| then vm.dirs[d].tables[i] else 0
  }

  /** The directory entry of slot `i` of directory `d`. */
  function SlotEntry<Page>(vm: Vm<Page>, d: int, i: int): Pde {
    if d in vm.dirs && 0 <= i < |vm.dirs[d].entries| then vm.dirs[d].entries[i] else NO_TABLE
  }

  /** Two slots share a table only if it is the kernel's table for that slot. */
  ghost predicate SharedOnlyKernel<Page>(vm: Vm<Page>) {
    forall d, i, d', i' :: Slot(vm, d, i) != 0 && Slot(vm, d, i) == Slot(vm, d', i') && (d != d' || i != i') ==>
      i == i' && Slot(vm, d, i) == Slot(vm, vm.kernel, i)
  }

  ghost predicate Inv<Page>(vm: Vm<Page>) {
    && FramesOk(vm)
    && vm.kernel in vm.dirs
    && (forall d :: d in vm.dirs ==> DirOk(vm, vm.dirs[d]))
    && SharedOnlyKernel(vm)
  }

  // ---------------------------------------------------------------- changing one entry

  /** Entry `j` of table `t` now has frame `p`, and no other entry changed its frame. */
  ghost predicate OneFrameChanged(tables: Tables, tables': Tables, t: int, j: int, p: int) {
    forall a, b :: Frame(tables', a, b) == if a == t && b == j then p else Frame(tables, a, b)
  }

  lemma {:induction false} FramesAfter<Page>(vm: Vm<Page>, v: Vm<Page>, t: int, j: int, p: int)
    requires FramesOk(vm) && OneFrameChanged(vm.tables, v.tables, t, j, p)
    requires p == 0 || p !in vm.held || p == Frame(vm.tables, t, j)
    requires p in v.held && 0 in v.held && |v.mem| == |vm.mem|
    requires forall f :: f in vm.held && f != Frame(vm.tables, t, j) ==> f in v.held
    requires forall f :: f in v.held ==> 0 <= f < |v.mem|
    requires forall a :: a in v.tables ==> |v.tables[a]| == ENTRIES && a != 0
    ensures FramesOk(v)
  {
    hide Frame;
    forall a, b, a', b' | Frame(v.tables, a, b) != 0 && Frame(v.tables, a, b) == Frame(v.tables, a', b')
      ensures a == a' && b == b'
    {
      assert Frame(vm.tables, a, b) != 0 ==> Frame(vm.tables, a, b) in vm.held;
      assert Frame(vm.tables, a', b') != 0 ==> Frame(vm.tables, a', b') in vm.held;
    }
    forall a, b | Frame(v.tables, a, b) != 0 ensures Frame(v.tables, a, b) in v.held {
      if !(a == t && b == j) {
        assert Frame(vm.tables, a, b) != Frame(vm.tables, t, j);
      }
    }
  }

  lemma {:induction false} SetEntryChanges<Page>(vm: Vm<Page>, t: int, j: int, e: Pte)
    requires t in vm.tables && 0 <= j < |vm.tables[t]|
    ensures OneFrameChanged(vm.tables, SetEntry(vm, t, j, e).tables, t, j, e.pfn)
  {
  }

  /**
    Page `j` of table `t` has just been given the lowest free frame: it is present, has the protection asked
    for and no other flag, and nothing else has changed.
   */
  ghost predicate Given<Page>(vm: Vm<Page>, v: Vm<Page>, t: int, j: int, kernel: bool, writable: bool)
    requires t in vm.tables && 0 <= j < |vm.tables[t]|
  {
    && v.tables.Keys == vm.tables.Keys && |v.tables[t]| == |vm.tables[t]|
    && (forall u :: u in vm.tables && u != t ==> v.tables[u] == vm.tables[u])
    && (forall k :: 0 <= k < |vm.tables[t]| && k != j ==> v.tables[t][k] == vm.tables[t][k])
    && v.dirs == vm.dirs && v.kernel == vm.kernel && v.mem == vm.mem
    && var e := v.tables[t][j];
       && e.pfn < |vm.mem| && e.pfn !in vm.held && (forall f :: 0 <= f < e.pfn ==> f in vm.held)
       && (forall f :: f in v.held <==> f in vm.held || f == e.pfn)
       && e.present && e.rw == writable && e.user == !kernel && !e.accessed && !e.dirty
  }

  /** A page that has a frame keeps its entry; one without gets the lowest free frame, unless none is left. */
  lemma {:induction false} AllocFrameExact<Page>(vm: Vm<Page>, t: int, j: int, kernel: bool, writable: bool)
    requires t in vm.tables && 0 <= j < |vm.tables[t]|
    ensures var r := AllocFrame(vm, t, j, kernel, writable);
            if vm.tables[t][j].pfn != 0 then r == Some(vm)
            else
              && (r.None? <==> forall f :: 0 <= f < |vm.mem| ==> f in vm.held)
              && (r.Some? ==> Given(vm, r.value, t, j, kernel, writable))
  {
  }

  /** Giving a page a frame keeps everything in order: the frame is new to all tables. */
  lemma {:induction false} AllocFrameOk<Page>(vm: Vm<Page>, t: int, j: int, kernel: bool, writable: bool)
    requires FramesOk(vm) && t in vm.tables && 0 <= j < ENTRIES
    ensures var r := AllocFrame(vm, t, j, kernel, writable);
            r.Some? ==>
              var v := r.value;
              && FramesOk(v) && v.dirs == vm.dirs && v.kernel == vm.kernel && v.mem == vm.mem
              && v.tables.Keys == vm.tables.Keys && vm.held <= v.held
              && v.tables[t][j].pfn != 0
              && OneFrameChanged(vm.tables, v.tables, t, j, v.tables[t][j].pfn)
              && (vm.tables[t][j].pfn != 0 ==> v == vm)
              && (vm.tables[t][j].pfn == 0 ==> Given(vm, v, t, j, kernel, writable))
  {
    AllocFrameExact(vm, t, j, kernel, writable);
    var r := AllocFrame(vm, t, j, kernel, writable);
    if vm.tables[t][j].pfn == 0 && r.Some? {
      var p := LowestFree(vm.held, 0, |vm.mem|);
      var e := Pte(p, true, writable, !kernel, false, false);
      SetEntryChanges(vm, t, j, e);
      FramesAfter(vm, r.value, t, j, p);
    }
  }

  /**
    Page `j` of table `t` has just lost its frame: of its flags only the writable one stays, its frame is free
    again, and no other entry and no other frame has changed.
   */
  ghost predicate Taken<Page>(vm: Vm<Page>, v: Vm<Page>, t: int, j: int)
    requires t in vm.tables && 0 <= j < |vm.tables[t]| && t in v.tables && v.tables.Keys == vm.tables.Keys
  {
    && |v.tables[t]| == |vm.tables[t]|
    && (forall u :: u in vm.tables && u != t ==> v.tables[u] == vm.tables[u])
    && (forall k :: 0 <= k < |vm.tables[t]| && k != j ==> v.tables[t][k] == vm.tables[t][k])
    && (forall f :: f in v.held <==> f in vm.held && f != vm.tables[t][j].pfn)
    && var e := v.tables[t][j];
       && e.pfn == 0 && e.rw == vm.tables[t][j].rw
       && !e.present && !e.user && !e.accessed && !e.dirty
  }

  lemma {:induction false} FreeFrameOk<Page>(vm: Vm<Page>, t: int, j: int)
    requires FramesOk(vm) && t in vm.tables && 0 <= j < ENTRIES
    ensures var v := FreeFrame(vm, t, j);
            && FramesOk(v) && v.dirs == vm.dirs && v.kernel == vm.kernel && v.mem == vm.mem
            && v.tables.Keys == vm.tables.Keys
            && OneFrameChanged(vm.tables, v.tables, t, j, 0)
            && (vm.tables[t][j].pfn == 0 ==> v == vm)
            && (vm.tables[t][j].pfn != 0 ==> Taken(vm, v, t, j))
  {
    var e := vm.tables[t][j];
    assert Frame(vm.tables, t, j) == e.pfn;
    if e.pfn != 0 {
      SetEntryChanges(vm, t, j, CLEAR.(rw := e.rw));
      FramesAfter(vm, FreeFrame(vm, t, j), t, j, 0);
    }
  }

  // ---------------------------------------------------------------- cloning a table

  /** Entry `k` of `dst` is a faithful copy: its own frame, equal contents, the same flags made present and user. */
  ghost predicate CopyOf<Page>(vm0: Vm<Page>, v: Vm<Page>, src: int, dst: int, k: int)
    requires src in vm0.tables && dst in v.tables && 0 <= k < |vm0.tables[src]| && k < |v.tables[dst]|
  {
    var e, f := vm0.tables[src][k], v.tables[dst][k];
    if e.pfn == 0 then f == BLANK
    else
      && f == Pte(f.pfn, true, e.rw, true, e.accessed, e.dirty)
      && f.pfn != 0 && f.pfn !in vm0.held && f.pfn in v.held
      && f.pfn < |v.mem| && e.pfn < |vm0.mem| && v.mem[f.pfn] == vm0.mem[e.pfn]
  }

  /** Nothing that existed before has changed but for new frames being handed out. */
  ghost predicate Extends<Page>(vm0: Vm<Page>, v: Vm<Page>) {
    && v.kernel == vm0.kernel && |v.mem| == |vm0.mem| && vm0.held <= v.held
    && (forall a :: a in vm0.tables ==> a in v.tables && v.tables[a] == vm0.tables[a])
    && (forall f :: f in vm0.held && 0 <= f < |vm0.mem| ==> v.mem[f] == vm0.mem[f])
  }

  /** The first `j` entries of `dst` are copies, the others still clear. */
  ghost predicate Progress<Page>(vm0: Vm<Page>, v: Vm<Page>, src: int, dst: int, j: int) {
    && src in vm0.tables && dst !in vm0.tables && |vm0.tables[src]| == ENTRIES
    && Extends(vm0, v) && v.dirs == vm0.dirs
    && v.tables.Keys == vm0.tables.Keys + {dst} && |v.tables[dst]| == ENTRIES
    && (forall k :: 0 <= k < j && k < ENTRIES ==> CopyOf(vm0, v, src, dst, k))
    && (forall k :: j <= k < ENTRIES && 0 <= k ==> v.tables[dst][k] == CLEAR)
  }

  lemma {:induction false} CloneEntryOk<Page>(vm0: Vm<Page>, vm: Vm<Page>, src: int, dst: int, j: nat)
    requires FramesOk(vm0) && FramesOk(vm) && Progress(vm0, vm, src, dst, j) && j < ENTRIES
    ensures CloneEntry(vm, src, dst, j).Some? ==>
              && FramesOk(CloneEntry(vm, src, dst, j).value)
              && Progress(vm0, CloneEntry(vm, src, dst, j).value, src, dst, j + 1)
  {
    var r := CloneEntry(vm, src, dst, j);
    var e := vm.tables[src][j];
    assert e == vm0.tables[src][j] && vm.tables[dst][j] == CLEAR;
    if e.pfn == 0 {
      var v := r.value;
      SetEntryChanges(vm, dst, j, BLANK);
      FramesAfter(vm, v, dst, j, 0);
      ProgressStep(vm0, vm, v, src, dst, j);
    } else if r.Some? {
      CloneCopyOk(vm0, vm, src, dst, j);
    }
  }

  /** The copying case: a new frame, with the contents and flags of the old one. */
  lemma {:induction false} CloneCopyOk<Page>(vm0: Vm<Page>, vm: Vm<Page>, src: int, dst: int, j: nat)
    requires FramesOk(vm0) && FramesOk(vm) && Progress(vm0, vm, src, dst, j) && j < ENTRIES
    requires vm.tables[src][j].pfn != 0 && CloneEntry(vm, src, dst, j).Some?
    ensures FramesOk(CloneEntry(vm, src, dst, j).value)
    ensures Progress(vm0, CloneEntry(vm, src, dst, j).value, src, dst, j + 1)
  {
    hide LowestFree, Unique, OneFrameChanged, CloneEntry, AllocFrame;
    var e := vm.tables[src][j];
    assert e == vm0.tables[src][j] && vm.tables[dst][j] == CLEAR;
    assert Frame(vm0.tables, src, j) in vm0.held;
    CopiedEntry(vm, src, dst, j);
    AllocFrameOk(vm, dst, j, false, false);
    var w := AllocFrame(vm, dst, j, false, false).value;
    var p := w.tables[dst][j].pfn;
    var f := Pte(p, true, e.rw, true, e.accessed, e.dirty);
    assert Frame(w.tables, dst, j) == p && p in w.held;
    var v := CloneEntry(vm, src, dst, j).value;
    SetEntryChanges(w, dst, j, f);
    FramesAfter(w, v, dst, j, p);
    ProgressStep(vm0, vm, v, src, dst, j);
  }

  /** What copying an entry that has a frame does, given what giving the copy a frame does. */
  lemma {:induction false} CopiedEntry<Page>(vm: Vm<Page>, src: int, dst: int, j: nat)
    requires src in vm.tables && dst in vm.tables && j < |vm.tables[src]| == |vm.tables[dst]|
    requires vm.tables[dst][j] == CLEAR && CloneEntry(vm, src, dst, j).Some?
    requires 0 < vm.tables[src][j].pfn < |vm.mem|
    ensures var e, r := vm.tables[src][j], AllocFrame(vm, dst, j, false, false);
            && r.Some?
            && var w := r.value;
            && var f := Pte(w.tables[dst][j].pfn, true, false, true, false, false);
            && w.tables == vm.tables[dst := vm.tables[dst][j := f]]
            && w.tables[dst][j].pfn < |w.mem| && w.tables[dst][j].pfn in w.held && w.mem == vm.mem
            && CloneEntry(vm, src, dst, j).value ==
               SetEntry(w, dst, j, Pte(w.tables[dst][j].pfn, true, e.rw, true, e.accessed, e.dirty))
               .(mem := w.mem[w.tables[dst][j].pfn := w.mem[e.pfn]])
  {
  }

  lemma {:induction false} ProgressStep<Page>(vm0: Vm<Page>, vm: Vm<Page>, v: Vm<Page>, src: int, dst: int, j: nat)
    requires Progress(vm0, vm, src, dst, j) && j < ENTRIES && FramesOk(vm0) && FramesOk(vm)
    requires v.kernel == vm.kernel && v.dirs == vm.dirs && |v.mem| == |vm.mem| && vm.held <= v.held
    requires v.tables.Keys == vm.tables.Keys && v.tables == vm.tables[dst := v.tables[dst]]
    requires |v.tables[dst]| == ENTRIES && v.tables[dst] == vm.tables[dst][j := v.tables[dst][j]]
    requires forall f :: f in vm.held && 0 <= f < |vm.mem| ==> v.mem[f] == vm.mem[f]
    requires CopyOf(vm0, v, src, dst, j)
    ensures Progress(vm0, v, src, dst, j + 1)
  {
    forall k | 0 <= k < j + 1 && k < ENTRIES ensures CopyOf(vm0, v, src, dst, k) {
      if k < j {
        assert CopyOf(vm0, vm, src, dst, k) && v.tables[dst][k] == vm.tables[dst][k];
      }
    }
  }

  lemma {:induction false} CloneEntriesOk<Page>(vm0: Vm<Page>, vm: Vm<Page>, src: int, dst: int, j: nat)
    requires FramesOk(vm0) && FramesOk(vm) && Progress(vm0, vm, src, dst, j) && j <= ENTRIES && src != dst
    ensures var r := CloneEntries(vm, src, dst, j);
            r.Some? ==> FramesOk(r.value) && Progress(vm0, r.value, src, dst, ENTRIES)
    decreases ENTRIES - j
  {
    if j < ENTRIES {
      CloneEntryOk(vm0, vm, src, dst, j);
      var r := CloneEntry(vm, src, dst, j);
      if r.Some? {
        CloneEntriesOk(vm0, r.value, src, dst, j + 1);
      }
    }
  }

  /** A new, cleared table is a copy of nothing yet. */
  lemma {:induction false} StartClone<Page>(vm: Vm<Page>, src: int, dst: int)
    requires FramesOk(vm) && src in vm.tables && dst !in vm.tables && dst != 0
    ensures var v := vm.(tables := vm.tables[dst := EmptyTable()]);
            FramesOk(v) && Progress(vm, v, src, dst, 0)
  {
    var v := vm.(tables := vm.tables[dst := EmptyTable()]);
    forall a, b ensures Frame(v.tables, a, b) == Frame(vm.tables, a, b) {
    }
  }

  /** Cloning a table: a new table of faithful copies, and nothing else changed. */
  lemma {:induction false} CloneTableOk<Page>(vm: Vm<Page>, src: int, dst: int)
    requires FramesOk(vm) && src in vm.tables && dst !in vm.tables && dst != 0
    ensures var r := CloneTable(vm, src, dst);
            r.Some? ==> FramesOk(r.value) && Progress(vm, r.value, src, dst, ENTRIES)
  {
    StartClone(vm, src, dst);
    CloneEntriesOk(vm, vm.(tables := vm.tables[dst := EmptyTable()]), src, dst, 0);
  }

  // ---------------------------------------------------------------- cloning a directory

  /** Addresses for the new tables: one per slot, unused and all different. */
  ghost predicate Unused<Page>(vm: Vm<Page>, places: seq<Place>, i: int) {
    && |places| == ENTRIES
    && (forall k :: 0 <= k < ENTRIES && i <= k ==> places[k].addr != 0 && places[k].addr !in vm.tables)
    && (forall k, l :: 0 <= k < l < ENTRIES ==> places[k].addr != places[l].addr)
  }

  /** Table `dst` holds faithful copies of all entries of `src`. */
  ghost predicate TableCopied<Page>(vm0: Vm<Page>, v: Vm<Page>, src: int, dst: int) {
    && src in vm0.tables && dst in v.tables && |vm0.tables[src]| == |v.tables[dst]| == ENTRIES
    && forall k :: 0 <= k < ENTRIES ==> CopyOf(vm0, v, src, dst, k)
  }

  /** What slot `k` of the clone holds: nothing, the kernel's own table, or a copy at its new address. */
  ghost predicate SlotCopied<Page>(vm0: Vm<Page>, v: Vm<Page>, src: int, dst: int, places: seq<Place>, k: int) {
    && 0 <= k < |places|
    && var s, d, e := Slot(vm0, src, k), Slot(v, dst, k), SlotEntry(v, dst, k);
       if s == 0 then d == 0 && e == NO_TABLE
       else if s == Slot(vm0, vm0.kernel, k) then d == s && e == SlotEntry(vm0, src, k)
       else d == places[k].addr && e == Pde(places[k].paddr, true, true, true) && TableCopied(vm0, v, s, d)
  }

  ghost predicate DirProgress<Page>(vm0: Vm<Page>, v: Vm<Page>, src: int, dst: int, places: seq<Place>, i: int) {
    && src in vm0.dirs && dst !in vm0.dirs && dst in v.dirs
    && Extends(vm0, v) && v.dirs == vm0.dirs[dst := v.dirs[dst]]
    && |v.dirs[dst].tables| == |v.dirs[dst].entries| == ENTRIES
    && Unused(v, places, i)
    && (forall k :: 0 <= k < i && k < ENTRIES ==> SlotCopied(vm0, v, src, dst, places, k))
    && (forall k :: 0 <= k < ENTRIES && i <= k ==> v.dirs[dst].tables[k] == 0)
  }

  /** A faithful copy stays one while the system only grows. */
  lemma {:induction false} CopySurvives<Page>(vm0: Vm<Page>, v: Vm<Page>, w: Vm<Page>, src: int, dst: int)
    requires TableCopied(vm0, v, src, dst) && Extends(v, w)
    ensures TableCopied(vm0, w, src, dst)
  {
    forall k | 0 <= k < ENTRIES ensures CopyOf(vm0, w, src, dst, k) {
      assert CopyOf(vm0, v, src, dst, k);
    }
  }

  /** A copy made later is a copy of the original. */
  lemma {:induction false} CopyOfOriginal<Page>(vm0: Vm<Page>, vm: Vm<Page>, v: Vm<Page>, src: int, dst: int)
    requires FramesOk(vm0) && Extends(vm0, vm) && src in vm0.tables && TableCopied(vm, v, src, dst)
    ensures TableCopied(vm0, v, src, dst)
  {
    forall k | 0 <= k < ENTRIES ensures CopyOf(vm0, v, src, dst, k) {
      assert CopyOf(vm, v, src, dst, k);
      assert Frame(vm0.tables, src, k) == vm0.tables[src][k].pfn;
    }
  }

  lemma {:induction false} ExtendsTransitive<Page>(a: Vm<Page>, b: Vm<Page>, c: Vm<Page>)
    requires Extends(a, b) && Extends(b, c) && FramesOk(a)
    ensures Extends(a, c)
  {
  }

  /** Writing a slot of one directory keeps the sharing discipline if the table is new or the kernel's. */
  lemma {:induction false} SetSlotOk<Page>(vm: Vm<Page>, d: int, i: int, table: int, entry: Pde)
    requires Inv(vm) && d in vm.dirs && d != vm.kernel && 0 <= i < ENTRIES
    requires table == 0 || table in vm.tables
    requires table != 0 ==> table == Slot(vm, vm.kernel, i) || forall a, b :: Slot(vm, a, b) != table
    ensures Inv(SetSlot(vm, d, i, table, entry))
    ensures forall a, b ::
              Slot(SetSlot(vm, d, i, table, entry), a, b) == if a == d && b == i then table else Slot(vm, a, b)
  {
    var v := SetSlot(vm, d, i, table, entry);
    forall a, b ensures Slot(v, a, b) == if a == d && b == i then table else Slot(vm, a, b) {
    }
    assert SharedOnlyKernel(v) by {
      hide Slot;
      assert Slot(v, v.kernel, i) == Slot(vm, vm.kernel, i);
    }
  }

  /** A state whose tables only grew is still in order. */
  lemma {:induction false} GrownTablesOk<Page>(vm: Vm<Page>, v: Vm<Page>)
    requires Inv(vm) && FramesOk(v) && Extends(vm, v) && v.dirs == vm.dirs
    ensures Inv(v)
  {
    forall a, b ensures Slot(v, a, b) == Slot(vm, a, b) {
    }
    forall d | d in v.dirs ensures DirOk(v, v.dirs[d]) {
      assert DirOk(vm, vm.dirs[d]);
    }
    assert SharedOnlyKernel(v) by { hide Slot; }
  }

  /** One slot of the clone: a step forward, in order again, unless frames ran out. */
  lemma {:induction false} CloneSlotOk<Page>(vm0: Vm<Page>, vm: Vm<Page>, src: int, dst: int,
                                             places: seq<Place>, i: nat)
    requires Inv(vm0) && Inv(vm) && DirProgress(vm0, vm, src, dst, places, i) && i < ENTRIES
    ensures Followable(vm, src, dst, places, i)
    ensures var r := CloneSlot(vm, src, dst, places, i);
            r.Some? ==> Inv(r.value) && DirProgress(vm0, r.value, src, dst, places, i + 1)
  {
    var s := vm.dirs[src].tables[i];
    assert DirOk(vm, vm.dirs[src]) && DirOk(vm, vm.dirs[vm.kernel]) && DirOk(vm0, vm0.dirs[src]);
    assert s == Slot(vm0, src, i) && Slot(vm, vm.kernel, i) == Slot(vm0, vm0.kernel, i);
    var r := CloneSlot(vm, src, dst, places, i);
    if s == 0 {
      SetSlotOk(vm, dst, i, 0, NO_TABLE);
      SlotStep(vm0, vm, r.value, src, dst, places, i);
    } else if s == vm.dirs[vm.kernel].tables[i] {
      SetSlotOk(vm, dst, i, s, vm.dirs[src].entries[i]);
      SlotStep(vm0, vm, r.value, src, dst, places, i);
    } else if r.Some? {
      var t := places[i].addr;
      CloneTableOk(vm, s, t);
      var w := CloneTable(vm, s, t).value;
      GrownTablesOk(vm, w);
      forall a, b ensures Slot(w, a, b) != t {
        if a in vm.dirs { assert DirOk(vm, vm.dirs[a]); }
      }
      SetSlotOk(w, dst, i, t, Pde(places[i].paddr, true, true, true));
      assert TableCopied(vm, r.value, s, t) by { assert TableCopied(vm, w, s, t); CopySurvives(vm, w, r.value, s, t); }
      CopyOfOriginal(vm0, vm, r.value, s, t);
      SlotStep(vm0, vm, r.value, src, dst, places, i);
    }
  }

  lemma {:induction false} SlotStep<Page>(vm0: Vm<Page>, vm: Vm<Page>, v: Vm<Page>, src: int, dst: int,
                                          places: seq<Place>, i: nat)
    requires Inv(vm0) && DirProgress(vm0, vm, src, dst, places, i) && i < ENTRIES
    requires Extends(vm, v) && dst in v.dirs && |v.dirs[dst].entries| == ENTRIES
    requires v.dirs == vm.dirs[dst := Dir(vm.dirs[dst].tables[i := Slot(v, dst, i)],
                                          vm.dirs[dst].entries[i := v.dirs[dst].entries[i]])]
    requires v.tables.Keys == vm.tables.Keys || v.tables.Keys == vm.tables.Keys + {places[i].addr}
    requires SlotCopied(vm0, v, src, dst, places, i)
    ensures DirProgress(vm0, v, src, dst, places, i + 1)
  {
    ExtendsTransitive(vm0, vm, v);
    forall k | 0 <= k < i + 1 && k < ENTRIES ensures SlotCopied(vm0, v, src, dst, places, k) {
      if k < i {
        assert SlotCopied(vm0, vm, src, dst, places, k) && Slot(v, dst, k) == Slot(vm, dst, k);
        assert SlotEntry(v, dst, k) == SlotEntry(vm, dst, k);
        var s := Slot(vm0, src, k);
        if s != 0 && s != Slot(vm0, vm0.kernel, k) {
          CopySurvives(vm0, vm, v, s, places[k].addr);
        }
      }
    }
  }

  lemma {:induction false} CloneSlotsOk<Page>(vm0: Vm<Page>, vm: Vm<Page>, src: int, dst: int,
                                              places: seq<Place>, i: nat)
    requires Inv(vm0) && Inv(vm) && DirProgress(vm0, vm, src, dst, places, i) && i <= ENTRIES
    ensures var r := CloneSlots(vm, src, dst, places, i);
            r.Some? ==> Inv(r.value) && DirProgress(vm0, r.value, src, dst, places, ENTRIES)
    decreases ENTRIES - i
  {
    if i < ENTRIES {
      CloneSlotOk(vm0, vm, src, dst, places, i);
      var r := CloneSlot(vm, src, dst, places, i);
      if r.Some? {
        CloneSlotsOk(vm0, r.value, src, dst, places, i + 1);
      }
    }
  }

  /** A new, cleared directory is a copy of nothing yet. */
  lemma {:induction false} StartDir<Page>(vm: Vm<Page>, src: int, dst: int, places: seq<Place>)
    requires Inv(vm) && src in vm.dirs && dst !in vm.dirs && Unused(vm, places, 0)
    ensures var v := vm.(dirs := vm.dirs[dst := EmptyDir()]);
            Inv(v) && DirProgress(vm, v, src, dst, places, 0)
  {
    var v := vm.(dirs := vm.dirs[dst := EmptyDir()]);
    forall a, b ensures Slot(v, a, b) == Slot(vm, a, b) {
    }
    forall d | d in v.dirs ensures DirOk(v, v.dirs[d]) {
      if d != dst { assert DirOk(vm, vm.dirs[d]); }
    }
    assert SharedOnlyKernel(v) by { hide Slot; }
  }

  /**
    Cloning a directory keeps the invariant and changes nothing that existed; every slot of the
    clone is empty, is the kernel's own table, or is a new table of faithful copies.
   */
  lemma {:induction false} CloneDirOk<Page>(vm: Vm<Page>, src: int, dst: int, places: seq<Place>)
    requires Inv(vm) && src in vm.dirs && dst !in vm.dirs && Unused(vm, places, 0)
    ensures var r := CloneDir(vm, src, dst, places);
            r.Some? ==> Inv(r.value) && DirProgress(vm, r.value, src, dst, places, ENTRIES)
  {
    StartDir(vm, src, dst, places);
    CloneSlotsOk(vm, vm.(dirs := vm.dirs[dst := EmptyDir()]), src, dst, places, 0);
  }

  // ---------------------------------------------------------------- whole runs

  /** What happens to address spaces: pages are looked up, mapped, unmapped and written, and directories cloned. */
  datatype Op<Page> =
    | Touch(dir: int, i: int, place: Place)
    | MapPage(dir: int, i: int, j: int, place: Place, kernel: bool, writable: bool)
    | Unmap(dir: int, i: int, j: int)
    | Store(dir: int, i: int, j: int, page: Page)
    | Fork(src: int, dst: int, places: seq<Place>)

  ghost predicate Allowed<Page>(vm: Vm<Page>, op: Op<Page>) {
    match op
    case Fork(src, dst, places) => src in vm.dirs && dst !in vm.dirs && Unused(vm, places, 0)
    case Touch(d, i, place) => d in vm.dirs && 0 <= i < ENTRIES && place.addr != 0 && place.addr !in vm.tables
    case MapPage(d, i, j, place, _, _) =>
      d in vm.dirs && 0 <= i < ENTRIES && 0 <= j < ENTRIES && place.addr != 0 && place.addr !in vm.tables
    case Unmap(d, i, j) => d in vm.dirs && 0 <= i < ENTRIES && 0 <= j < ENTRIES
    case Store(d, i, j, _) => d in vm.dirs && 0 <= i < ENTRIES && 0 <= j < ENTRIES
  }

  /** What directory `d` shows at page (`i`, `j`). */
  function Read<Page>(vm: Vm<Page>, d: int, i: int, j: int): Option<Page> {
    var f := Frame(vm.tables, Slot(vm, d, i), j);
    if 0 < f < |vm.mem| then Some(vm.mem[f]) else None
  }

  ghost function Step<Page>(vm: Vm<Page>, op: Op<Page>): Option<Vm<Page>>
    requires Inv(vm) && Allowed(vm, op)
  {
    match op
    case Touch(d, i, place) => Some(TouchTable(vm, d, i, place))
    case MapPage(d, i, j, place, kernel, writable) =>
      var v := TouchTable(vm, d, i, place);
      TouchOk(vm, d, i, place);
      AllocFrame(v, Slot(v, d, i), j, kernel, writable)
    case Unmap(d, i, j) =>
      assert DirOk(vm, vm.dirs[d]);
      if Slot(vm, d, i) == 0 then Some(vm) else Some(FreeFrame(vm, Slot(vm, d, i), j))
    case Store(d, i, j, page) =>
      var f := Frame(vm.tables, Slot(vm, d, i), j);
      if 0 < f < |vm.mem| then Some(vm.(mem := vm.mem[f := page])) else Some(vm)
    case Fork(src, dst, places) => CloneDir(vm, src, dst, places)
  }

  ghost function TouchTable<Page>(vm: Vm<Page>, d: int, i: int, place: Place): Vm<Page>
    requires Inv(vm) && d in vm.dirs && 0 <= i < ENTRIES
  {
    assert DirOk(vm, vm.dirs[d]);
    EnsureTable(vm, d, i, place.addr, place.paddr)
  }

  /** Looking a page up, creating its table if need be. */
  lemma {:induction false} TouchOk<Page>(vm: Vm<Page>, d: int, i: int, place: Place)
    requires Inv(vm) && d in vm.dirs && 0 <= i < ENTRIES && place.addr != 0 && place.addr !in vm.tables
    ensures var v := TouchTable(vm, d, i, place);
            && Inv(v) && Slot(v, d, i) != 0 && Slot(v, d, i) in v.tables
            && Extends(vm, v) && v.mem == vm.mem && v.held == vm.held
            && (forall a, b :: Slot(vm, a, b) != 0 ==> Slot(v, a, b) == Slot(vm, a, b))
            && (forall a, b :: Slot(v, a, b) != Slot(vm, a, b) ==> a == d && b == i && Slot(v, a, b) == place.addr)
            && (forall a, b :: SlotEntry(v, a, b) == if Slot(v, a, b) == Slot(vm, a, b) then SlotEntry(vm, a, b)
                                                     else Pde(place.paddr, true, true, false))
            && (Slot(vm, d, i) == 0 ==> forall j :: 0 <= j < ENTRIES ==> v.tables[place.addr][j] == BLANK)
  {
    var v := TouchTable(vm, d, i, place);
    assert DirOk(vm, vm.dirs[d]);
    if Slot(vm, d, i) == 0 {
      var w := vm.(tables := vm.tables[place.addr := BlankTable()]);
      forall a, b ensures Frame(w.tables, a, b) == Frame(vm.tables, a, b) {
      }
      assert FramesOk(w);
      GrownTablesOk(vm, w);
      forall a, b ensures Slot(w, a, b) != place.addr {
        if a in vm.dirs { assert DirOk(vm, vm.dirs[a]); }
      }
      NewSlotOk(w, d, i, place.addr, Pde(place.paddr, true, true, false));
      assert v == SetSlot(w, d, i, place.addr, Pde(place.paddr, true, true, false));
    }
  }

  /** Filling an empty slot of any directory, the kernel's included, with a table nobody has. */
  lemma {:induction false} NewSlotOk<Page>(vm: Vm<Page>, d: int, i: int, table: int, entry: Pde)
    requires Inv(vm) && d in vm.dirs && 0 <= i < ENTRIES && Slot(vm, d, i) == 0
    requires table != 0 && table in vm.tables && forall a, b :: Slot(vm, a, b) != table
    ensures |vm.dirs[d].tables| == |vm.dirs[d].entries| == ENTRIES
    ensures Inv(SetSlot(vm, d, i, table, entry))
    ensures forall a, b ::
              Slot(SetSlot(vm, d, i, table, entry), a, b) == if a == d && b == i then table else Slot(vm, a, b)
  {
    assert DirOk(vm, vm.dirs[d]);
    var v := SetSlot(vm, d, i, table, entry);
    forall a, b ensures Slot(v, a, b) == if a == d && b == i then table else Slot(vm, a, b) {
    }
    assert SharedOnlyKernel(v) by { hide Slot; }
  }

  /** Changing one entry of one table leaves directories and sharing alone. */
  lemma {:induction false} EntryChangeOk<Page>(vm: Vm<Page>, v: Vm<Page>)
    requires Inv(vm) && FramesOk(v) && v.dirs == vm.dirs && v.kernel == vm.kernel && v.tables.Keys == vm.tables.Keys
    ensures Inv(v)
  {
    forall a, b ensures Slot(v, a, b) == Slot(vm, a, b) {
    }
    forall d | d in v.dirs ensures DirOk(v, v.dirs[d]) {
      assert DirOk(vm, vm.dirs[d]);
    }
    assert SharedOnlyKernel(v) by { hide Slot; }
  }

  /** Every step keeps the invariant, and no slot that refers to a table ever changes. */
  lemma {:induction false} StepOk<Page>(vm: Vm<Page>, op: Op<Page>)
    requires Inv(vm) && Allowed(vm, op)
    ensures Step(vm, op).Some? ==>
              var v := Step(vm, op).value;
              && Inv(v) && v.kernel == vm.kernel
              && (forall a :: a in vm.dirs ==> a in v.dirs)
              && (forall a, b :: Slot(vm, a, b) != 0 ==> Slot(v, a, b) == Slot(vm, a, b))
              && (forall a, b :: a in vm.dirs && Slot(v, a, b) != Slot(vm, a, b) ==> Slot(v, a, b) !in vm.tables)
  {
    hide Unique, AllHeld, LowestFree, BlankTable;
    match op
    case Touch(d, i, place) => TouchOk(vm, d, i, place);
    case MapPage(d, i, j, place, kernel, writable) =>
      TouchOk(vm, d, i, place);
      var w := TouchTable(vm, d, i, place);
      AllocFrameOk(w, Slot(w, d, i), j, kernel, writable);
      var r := AllocFrame(w, Slot(w, d, i), j, kernel, writable);
      if r.Some? { EntryChangeOk(w, r.value); }
    case Unmap(d, i, j) =>
      assert DirOk(vm, vm.dirs[d]);
      if Slot(vm, d, i) != 0 {
        FreeFrameOk(vm, Slot(vm, d, i), j);
        EntryChangeOk(vm, FreeFrame(vm, Slot(vm, d, i), j));
      }
    case Store(d, i, j, page) =>
      EntryChangeOk(vm, Step(vm, op).value);
    case Fork(src, dst, places) =>
      ForkKeepsSlots(vm, src, dst, places);
  }

  /** A fork changes no slot of any directory there was. */
  lemma {:induction false} ForkKeepsSlots<Page>(vm: Vm<Page>, src: int, dst: int, places: seq<Place>)
    requires Inv(vm) && Allowed(vm, Fork(src, dst, places))
    ensures CloneDir(vm, src, dst, places).Some? ==>
              var v := CloneDir(vm, src, dst, places).value;
              && Inv(v) && v.kernel == vm.kernel
              && (forall a :: a in vm.dirs ==> a in v.dirs)
              && (forall a, b :: a in vm.dirs ==> Slot(v, a, b) == Slot(vm, a, b))
  {
    hide Inv, CloneDir, SlotCopied;
    CloneDirOk(vm, src, dst, places);
  }

  /** The table behind page (`i`, `j`) of `d` is its own, not the kernel's. */
  ghost predicate Private<Page>(vm: Vm<Page>, d: int, i: int) {
    d in vm.dirs && d != vm.kernel && Slot(vm, d, i) != 0 && Slot(vm, d, i) != Slot(vm, vm.kernel, i)
  }

  /** The operation works on the address space `d`. */
  predicate Concerns<Page>(op: Op<Page>, d: int) {
    !op.Fork? && op.dir == d
  }

  /** A private table is reached through no other slot. */
  lemma {:induction false} OnlyWayIn<Page>(vm: Vm<Page>, d: int, i: int, d': int, i': int)
    requires Inv(vm) && Private(vm, d, i) && d' != d
    ensures Slot(vm, d', i') != Slot(vm, d, i)
  {
    hide Slot;
  }

  /** A change to an entry of another table does not touch what `d` shows. */
  lemma {:induction false} OtherTable<Page>(vm: Vm<Page>, v: Vm<Page>, d: int, i: int, j: int, t: int, k: int, p: int)
    requires OneFrameChanged(vm.tables, v.tables, t, k, p) && t != Slot(vm, d, i)
    requires Slot(v, d, i) == Slot(vm, d, i) && v.mem == vm.mem
    ensures Read(v, d, i, j) == Read(vm, d, i, j)
  {
    hide Frame, Slot;
    assert Frame(v.tables, Slot(vm, d, i), j) == Frame(vm.tables, Slot(vm, d, i), j);
  }

  lemma {:induction false} MapIsolates<Page>(vm: Vm<Page>, d': int, i': int, j': int, place: Place,
                                             kernel: bool, writable: bool, d: int, i: int, j: int)
    requires Inv(vm) && Allowed(vm, MapPage(d', i', j', place, kernel, writable)) && Private(vm, d, i) && d' != d
    ensures var r := Step(vm, MapPage(d', i', j', place, kernel, writable));
            r.Some? ==> Read(r.value, d, i, j) == Read(vm, d, i, j)
  {
    hide LowestFree, BlankTable, Unique, AllHeld, SharedOnlyKernel;
    assert DirOk(vm, vm.dirs[d]) && DirOk(vm, vm.dirs[vm.kernel]);
    TouchOk(vm, d', i', place);
    var w := TouchTable(vm, d', i', place);
    assert Read(w, d, i, j) == Read(vm, d, i, j);
    AllocFrameOk(w, Slot(w, d', i'), j', kernel, writable);
    assert Private(w, d, i);
    OnlyWayIn(w, d, i, d', i');
    var r := AllocFrame(w, Slot(w, d', i'), j', kernel, writable);
    if r.Some? {
      OtherTable(w, r.value, d, i, j, Slot(w, d', i'), j', r.value.tables[Slot(w, d', i')][j'].pfn);
    }
  }

  /** No step on another address space changes what a private page shows, and the page stays private. */
  lemma {:induction false} StepIsolates<Page>(vm: Vm<Page>, op: Op<Page>, d: int, i: int, j: int)
    requires Inv(vm) && Allowed(vm, op) && Private(vm, d, i) && !Concerns(op, d)
    ensures Step(vm, op).Some? ==>
              var v := Step(vm, op).value;
              Inv(v) && Private(v, d, i) && Read(v, d, i, j) == Read(vm, d, i, j)
  {
    hide LowestFree, BlankTable;
    StepOk(vm, op);
    assert DirOk(vm, vm.dirs[d]) && DirOk(vm, vm.dirs[vm.kernel]);
    assert Slot(vm, d, i) in vm.tables;
    var r := Step(vm, op);
    if r.Some? {
      var v := r.value;
      assert Private(v, d, i);
      assert Frame(vm.tables, Slot(vm, d, i), j) != 0 ==> Frame(vm.tables, Slot(vm, d, i), j) in vm.held;
      match op
      case Touch(d', i', place) =>
        TouchOk(vm, d', i', place);
      case MapPage(d', i', j', place, kernel, writable) =>
        MapIsolates(vm, d', i', j', place, kernel, writable, d, i, j);
      case Unmap(d', i', j') =>
        assert DirOk(vm, vm.dirs[d']);
        if Slot(vm, d', i') != 0 {
          FreeFrameOk(vm, Slot(vm, d', i'), j');
          OnlyWayIn(vm, d, i, d', i');
          OtherTable(vm, v, d, i, j, Slot(vm, d', i'), j', 0);
        }
      case Store(d', i', j', page) =>
        OnlyWayIn(vm, d, i, d', i');
        assert Frame(vm.tables, Slot(vm, d', i'), j') != 0 ==>
                 Frame(vm.tables, Slot(vm, d', i'), j') != Frame(vm.tables, Slot(vm, d, i), j);
      case Fork(src, dst, places) =>
        CloneDirOk(vm, src, dst, places);
    }
  }

  /** The state after a run, or nothing if frames ran out or a step was not allowed. */
  ghost function Run<Page>(vm: Vm<Page>, ops: seq<Op<Page>>): Option<Vm<Page>>
    requires Inv(vm)
    decreases |ops|
  {
    if ops == [] then Some(vm)
    else if !Allowed(vm, ops[0]) then None
    else
      StepOk(vm, ops[0]);
      match Step(vm, ops[0])
      case None => None
      case Some(v) => Run(v, ops[1..])
  }

  /** Over every run the invariant holds: no frame but frame 0 is behind two entries anywhere. */
  lemma {:induction false} RunOk<Page>(vm: Vm<Page>, ops: seq<Op<Page>>)
    requires Inv(vm)
    ensures Run(vm, ops).Some? ==> Inv(Run(vm, ops).value)
    decreases |ops|
  {
    if ops != [] && Allowed(vm, ops[0]) {
      StepOk(vm, ops[0]);
      if Step(vm, ops[0]).Some? { RunOk(Step(vm, ops[0]).value, ops[1..]); }
    }
  }

  /** Isolation: over every run on other address spaces, forks included, a private page shows what it showed. */
  lemma {:induction false} RunIsolates<Page>(vm: Vm<Page>, ops: seq<Op<Page>>, d: int, i: int, j: int)
    requires Inv(vm) && Private(vm, d, i) && forall k :: 0 <= k < |ops| ==> !Concerns(ops[k], d)
    ensures Run(vm, ops).Some? ==> Read(Run(vm, ops).value, d, i, j) == Read(vm, d, i, j)
    decreases |ops|
  {
    if ops != [] && Allowed(vm, ops[0]) {
      StepIsolates(vm, ops[0], d, i, j);
      StepOk(vm, ops[0]);
      if Step(vm, ops[0]).Some? {
        RunIsolates(Step(vm, ops[0]).value, ops[1..], d, i, j);
      }
    }
  }

  /** A slot that shares the kernel's table shares it for ever, so both always show the same. */
  lemma {:induction false} RunShares<Page>(vm: Vm<Page>, ops: seq<Op<Page>>, d: int, i: int, j: int)
    requires Inv(vm) && Slot(vm, d, i) != 0 && Slot(vm, d, i) == Slot(vm, vm.kernel, i)
    ensures Run(vm, ops).Some? ==>
              var v := Run(vm, ops).value;
              Slot(v, d, i) == Slot(v, v.kernel, i) != 0 && Read(v, d, i, j) == Read(v, v.kernel, i, j)
    decreases |ops|
  {
    if ops != [] && Allowed(vm, ops[0]) {
      StepOk(vm, ops[0]);
      if Step(vm, ops[0]).Some? { RunShares(Step(vm, ops[0]).value, ops[1..], d, i, j); }
    }
  }

  /** A fork starts out showing exactly what its parent shows, page by page. */
  lemma {:induction false} ForkShowsSame<Page>(vm: Vm<Page>, src: int, dst: int, places: seq<Place>, i: int, j: int)
    requires Inv(vm) && Allowed(vm, Fork(src, dst, places)) && 0 <= i < ENTRIES && 0 <= j < ENTRIES
    ensures CloneDir(vm, src, dst, places).Some? ==>
              Read(CloneDir(vm, src, dst, places).value, dst, i, j) == Read(vm, src, i, j)
  {
    CloneDirOk(vm, src, dst, places);
    var r := CloneDir(vm, src, dst, places);
    if r.Some? {
      var v := r.value;
      assert SlotCopied(vm, v, src, dst, places, i);
      assert DirOk(vm, vm.dirs[src]);
      var s := Slot(vm, src, i);
      assert Frame(vm.tables, s, j) != 0 ==> Frame(vm.tables, s, j) in vm.held;
      if s != 0 && s != Slot(vm, vm.kernel, i) {
        assert CopyOf(vm, v, s, places[i].addr, j);
      }
    }
  }

  /**
    Fork isolation over whole runs: a child's own page starts with its parent's contents, and
    whatever the parent and everybody else do afterwards, the child keeps seeing them.
   */
  lemma {:induction false} ForkIsolates<Page>(vm: Vm<Page>, src: int, dst: int, places: seq<Place>,
                                              ops: seq<Op<Page>>, i: int, j: int)
    requires Inv(vm) && Allowed(vm, Fork(src, dst, places))
    requires Private(vm, src, i) && 0 <= i < ENTRIES && 0 <= j < ENTRIES
    requires forall k :: 0 <= k < |ops| ==> !Concerns(ops[k], dst)
    ensures CloneDir(vm, src, dst, places).Some? ==>
              var v := CloneDir(vm, src, dst, places).value;
              Inv(v) && (Run(v, ops).Some? ==> Read(Run(v, ops).value, dst, i, j) == Read(vm, src, i, j))
  {
    if CloneDir(vm, src, dst, places).Some? {
      CloneDirOk(vm, src, dst, places);
      var v := CloneDir(vm, src, dst, places).value;
      ForkShowsSame(vm, src, dst, places, i, j);
      assert SlotCopied(vm, v, src, dst, places, i);
      assert DirOk(vm, vm.dirs[vm.kernel]);
      assert Private(v, dst, i);
      RunIsolates(v, ops, dst, i, j);
    }
  }

  // ---------------------------------------------------------------- what the processor sees

  /** Every directory entry the processor reads names the table the kernel follows, by its physical address. */
  ghost predicate Agrees<Page>(vm: Vm<Page>, phys: int -> int) {
    forall d :: d in vm.dirs ==> DirAgrees(vm.dirs[d], phys)
  }

  ghost predicate DirAgrees(dir: Dir, phys: int -> int) {
    && |dir.tables| == |dir.entries|
    && forall i :: 0 <= i < |dir.tables| ==>
         if dir.tables[i] == 0 then !dir.entries[i].present
         else dir.entries[i].present && dir.entries[i].rw && dir.entries[i].paddr == phys(dir.tables[i])
  }

  /** The places of new tables are given with their right physical addresses. */
  ghost predicate Located<Page>(op: Op<Page>, phys: int -> int) {
    match op
    case Fork(_, _, places) => forall k :: 0 <= k < |places| ==> places[k].paddr == phys(places[k].addr)
    case Touch(_, _, place) => place.paddr == phys(place.addr)
    case MapPage(_, _, _, place, _, _) => place.paddr == phys(place.addr)
    case _ => true
  }

  lemma {:induction false} CloneSlotsAgree<Page>(vm0: Vm<Page>, vm: Vm<Page>, src: int, dst: int,
                                                 places: seq<Place>, i: nat, phys: int -> int)
    requires Inv(vm0) && Inv(vm) && DirProgress(vm0, vm, src, dst, places, i) && i <= ENTRIES && Agrees(vm, phys)
    requires forall k :: 0 <= k < |places| ==> places[k].paddr == phys(places[k].addr)
    ensures var r := CloneSlots(vm, src, dst, places, i); r.Some? ==> Agrees(r.value, phys)
    decreases ENTRIES - i
  {
    hide FramesOk, SharedOnlyKernel, SlotCopied, Extends, CloneTable;
    if i < ENTRIES {
      CloneSlotOk(vm0, vm, src, dst, places, i);
      var r := CloneSlot(vm, src, dst, places, i);
      if r.Some? {
        SlotAgrees(vm, src, dst, places, i, phys);
        CloneSlotsAgree(vm0, r.value, src, dst, places, i + 1, phys);
      }
    }
  }

  lemma {:induction false} SlotAgrees<Page>(vm: Vm<Page>, src: int, dst: int, places: seq<Place>, i: nat,
                                            phys: int -> int)
    requires Inv(vm) && Followable(vm, src, dst, places, i) && i < ENTRIES && Agrees(vm, phys)
    requires places[i].addr != 0 && places[i].addr !in vm.tables && places[i].paddr == phys(places[i].addr)
    requires vm.dirs[dst].tables[i] == 0
    ensures var r := CloneSlot(vm, src, dst, places, i); r.Some? ==> Agrees(r.value, phys)
  {
    assert DirAgrees(vm.dirs[src], phys) && DirAgrees(vm.dirs[dst], phys);
    var s := vm.dirs[src].tables[i];
    if s != 0 && s != vm.dirs[vm.kernel].tables[i] { CloneTableOk(vm, s, places[i].addr); }
  }

  /** Every step keeps the processor's view and the kernel's view of the directories the same. */
  lemma {:induction false} StepAgrees<Page>(vm: Vm<Page>, op: Op<Page>, phys: int -> int)
    requires Inv(vm) && Allowed(vm, op) && Agrees(vm, phys) && Located(op, phys)
    ensures Step(vm, op).Some? ==> Agrees(Step(vm, op).value, phys)
  {
    hide Unique, AllHeld, LowestFree, BlankTable;
    match op
    case Touch(d, i, place) =>
      assert DirAgrees(vm.dirs[d], phys);
    case MapPage(d, i, j, place, kernel, writable) =>
      assert DirAgrees(vm.dirs[d], phys);
      TouchOk(vm, d, i, place);
    case Unmap(d, i, j) =>
    case Store(d, i, j, page) =>
    case Fork(src, dst, places) =>
      StartDir(vm, src, dst, places);
      CloneSlotsAgree(vm, vm.(dirs := vm.dirs[dst := EmptyDir()]), src, dst, places, 0, phys);
  }

  /** Over every run both views stay the same. */
  lemma {:induction false} RunAgrees<Page>(vm: Vm<Page>, ops: seq<Op<Page>>, phys: int -> int)
    requires Inv(vm) && Agrees(vm, phys) && forall k :: 0 <= k < |ops| ==> Located(ops[k], phys)
    ensures Run(vm, ops).Some? ==> Agrees(Run(vm, ops).value, phys)
    decreases |ops|
  {
    hide Inv, Agrees, Located, Step, Allowed;
    if ops != [] && Allowed(vm, ops[0]) {
      StepOk(vm, ops[0]);
      if Step(vm, ops[0]).Some? {
        StepAgrees(vm, ops[0], phys);
        RunAgrees(Step(vm, ops[0]).value, ops[1..], phys);
      }
    }
  }

  // ---------------------------------------------------------------- entries as 32-bit words

  const PRESENT: bv32 := 0x1
  const RW: bv32 := 0x2
  const USER: bv32 := 0x4
  const ACCESSED: bv32 := 0x20
  const DIRTY: bv32 := 0x40

  /** What a word in a page table means. */
  function EntryOf(w: bv32): Pte {
    Pte((w >> 12) as nat, w & PRESENT != 0, w & RW != 0, w & USER != 0, w & ACCESSED != 0, w & DIRTY != 0)
  }

  /** The word written when a page gets frame `p`. */
  function AllocatedWord(p: bv32, kernel: bool, writable: bool): bv32 {
    (p << 12) | PRESENT | (if kernel then 0 else USER) | (if writable then RW else 0)
  }

  /** The flags of `e` set in `f`, one after the other. */
  function FlaggedWord(f: bv32, e: bv32): bv32 {
    var a := if e & PRESENT != 0 then f | PRESENT else f;
    var b := if e & RW != 0 then a | RW else a;
    var c := if e & USER != 0 then b | USER else b;
    var d := if e & ACCESSED != 0 then c | ACCESSED else c;
    if e & DIRTY != 0 then d | DIRTY else d
  }

  /** Writing a word for frame `p` is what giving a page a frame says. */
  lemma {:induction false} AllocatedMeans(p: bv32, kernel: bool, writable: bool)
    requires p < 0x10_0000
    ensures EntryOf(AllocatedWord(p, kernel, writable)) == Pte(p as nat, true, writable, !kernel, false, false)
  {
    hide AllocatedWord;
    AllocatedBits(p, kernel, writable);
  }

  /** Masking a word with the writable flag is what taking a page's frame back says. */
  lemma {:induction false} FreedMeans(w: bv32)
    ensures EntryOf(w & RW) == CLEAR.(rw := EntryOf(w).rw)
  {
    var v := w & RW;
    FreedBits(w, v);
  }

  /** Setting flags one after the other is what copying an entry's flags says. */
  lemma {:induction false} FlaggedMeans(w: bv32, e: bv32)
    ensures var f, g := EntryOf(w), EntryOf(e);
            EntryOf(FlaggedWord(w, e)) ==
            Pte(f.pfn, f.present || g.present, f.rw || g.rw, f.user || g.user,
                f.accessed || g.accessed, f.dirty || g.dirty)
  {
    hide FlaggedWord;
    FlaggedBits(w, e);
  }

  lemma FreedBits(w: bv32, v: bv32)
    requires v == w & RW
    ensures v >> 12 == 0 && v & PRESENT == 0 && v & USER == 0 && v & ACCESSED == 0 && v & DIRTY == 0 && v & RW == w & RW
  {
  }

  lemma AllocatedBits(p: bv32, kernel: bool, writable: bool)
    requires p < 0x10_0000
    ensures var w := AllocatedWord(p, kernel, writable);
            && w >> 12 == p && w & PRESENT != 0 && (w & RW != 0 <==> writable) && (w & USER != 0 <==> !kernel)
            && w & ACCESSED == 0 && w & DIRTY == 0
  {
  }

  lemma FlaggedBits(f: bv32, e: bv32)
    ensures var w := FlaggedWord(f, e);
            && w >> 12 == f >> 12
            && (w & PRESENT != 0 <==> f & PRESENT != 0 || e & PRESENT != 0)
            && (w & RW != 0 <==> f & RW != 0 || e & RW != 0)
            && (w & USER != 0 <==> f & USER != 0 || e & USER != 0)
            && (w & ACCESSED != 0 <==> f & ACCESSED != 0 || e & ACCESSED != 0)
            && (w & DIRTY != 0 <==> f & DIRTY != 0 || e & DIRTY != 0)
  {
  }
}
