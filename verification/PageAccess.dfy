/**
  What a program in user mode may do with a page, by section 4.6 of the Intel SDM, Volume 3A: both levels
  of the tables have to allow it. Whatever a page's own flags say, the entry that a lookup writes into
  the directory is for the supervisor alone, and only a fork's copy opens it.
 */
module PageAccess {
  import opened Paging

  /** The table entry of page (`i`, `j`) of `d`. */
  function PageEntry<Page>(vm: Vm<Page>, d: int, i: int, j: int): Pte {
    var t := Slot(vm, d, i);
    if t in vm.tables && 0 <= j < |vm.tables[t]| then vm.tables[t][j] else CLEAR
  }

  predicate UserReads<Page>(vm: Vm<Page>, d: int, i: int, j: int) {
    var a, e := SlotEntry(vm, d, i), PageEntry(vm, d, i, j);
    a.present && a.user && e.present && e.user
  }

  predicate UserWrites<Page>(vm: Vm<Page>, d: int, i: int, j: int) {
    UserReads(vm, d, i, j) && SlotEntry(vm, d, i).rw && PageEntry(vm, d, i, j).rw
  }

  /** User mode may write behind the directory entry of a slot. */
  predicate Opened(a: Pde) {
    a.present && a.user && a.rw
  }

  // ---------------------------------------------------------------- mapping

  /**
    The exact condition under which a page newly mapped for user mode can be used there: its table has to be
    there already, behind a directory entry that user mode may use.
   */
  lemma {:induction false} MappedAccess<Page>(vm: Vm<Page>, d: int, i: int, j: int, place: Place,
                                              kernel: bool, writable: bool)
    requires Inv(vm) && Allowed(vm, MapPage(d, i, j, place, kernel, writable))
    requires Frame(vm.tables, Slot(vm, d, i), j) == 0
    ensures var r := Step(vm, MapPage(d, i, j, place, kernel, writable));
            r.Some? ==>
              var v, a := r.value, SlotEntry(vm, d, i);
              && (UserReads(v, d, i, j) <==> !kernel && Slot(vm, d, i) != 0 && a.present && a.user)
              && (UserWrites(v, d, i, j) <==> !kernel && writable && Slot(vm, d, i) != 0 && Opened(a))
  {
    hide LowestFree, BlankTable, AllocFrame, Unique, AllHeld, SharedOnlyKernel;
    TouchOk(vm, d, i, place);
    var w := TouchTable(vm, d, i, place);
    var t := Slot(w, d, i);
    AllocFrameOk(w, t, j, kernel, writable);
    assert Slot(vm, d, i) != 0 ==> DirOk(vm, vm.dirs[d]) && w.tables[t][j] == vm.tables[t][j];
    var r := AllocFrame(w, t, j, kernel, writable);
    if r.Some? {
      assert PageEntry(r.value, d, i, j) == r.value.tables[t][j];
      assert SlotEntry(r.value, d, i) == SlotEntry(w, d, i);
    }
  }

  // ---------------------------------------------------------------- forks

  /**
    What user mode may do in a fork's address space: in a table of its own every page with a frame can be
    read, and written if its flag said so in the parent; in a linked table just what the parent could.
   */
  lemma {:induction false} ForkAccess<Page>(vm: Vm<Page>, src: int, dst: int, places: seq<Place>, i: int, j: int)
    requires Inv(vm) && Allowed(vm, Fork(src, dst, places)) && 0 <= i < ENTRIES && 0 <= j < ENTRIES
    ensures CloneDir(vm, src, dst, places).Some? ==>
              var v, e := CloneDir(vm, src, dst, places).value, PageEntry(vm, src, i, j);
              if Slot(vm, src, i) == Slot(vm, vm.kernel, i) then
                Slot(vm, src, i) != 0 ==>
                  && (UserReads(v, dst, i, j) <==> UserReads(vm, src, i, j))
                  && (UserWrites(v, dst, i, j) <==> UserWrites(vm, src, i, j))
              else
                && (UserReads(v, dst, i, j) <==> e.pfn != 0)
                && (UserWrites(v, dst, i, j) <==> e.pfn != 0 && e.rw)
  {
    hide CloneDir, Unique, AllHeld, SharedOnlyKernel;
    CloneDirOk(vm, src, dst, places);
    var r := CloneDir(vm, src, dst, places);
    if r.Some? {
      var v := r.value;
      assert SlotCopied(vm, v, src, dst, places, i) && DirOk(vm, vm.dirs[src]);
      var s := Slot(vm, src, i);
      if s != 0 && s != Slot(vm, vm.kernel, i) {
        assert CopyOf(vm, v, s, places[i].addr, j);
      }
    }
  }

  // ---------------------------------------------------------------- whole runs

  /** No step changes the directory entry of a slot that refers to a table. */
  lemma {:induction false} StepKeepsEntries<Page>(vm: Vm<Page>, op: Op<Page>, d: int, i: int)
    requires Inv(vm) && Allowed(vm, op) && Slot(vm, d, i) != 0
    ensures Step(vm, op).Some? ==>
              Slot(Step(vm, op).value, d, i) == Slot(vm, d, i) &&
              SlotEntry(Step(vm, op).value, d, i) == SlotEntry(vm, d, i)
  {
    hide Unique, AllHeld, LowestFree, BlankTable, AllocFrame, FreeFrame, CloneDir, SlotCopied;
    StepOk(vm, op);
    match op
    case Touch(d', i', place) => TouchOk(vm, d', i', place);
    case MapPage(d', i', j, place, kernel, writable) =>
      TouchOk(vm, d', i', place);
      var w := TouchTable(vm, d', i', place);
      AllocFrameOk(w, Slot(w, d', i'), j, kernel, writable);
    case Unmap(d', i', j) =>
      assert DirOk(vm, vm.dirs[d']);
      if Slot(vm, d', i') != 0 { FreeFrameOk(vm, Slot(vm, d', i'), j); }
    case Store(_, _, _, _) =>
    case Fork(src, dst, places) => CloneDirOk(vm, src, dst, places);
  }

  /** Over every run the pages behind a directory entry that is for the supervisor stay out of user mode's reach. */
  lemma {:induction false} SupervisorStays<Page>(vm: Vm<Page>, ops: seq<Op<Page>>, d: int, i: int, j: int)
    requires Inv(vm) && Slot(vm, d, i) != 0 && !SlotEntry(vm, d, i).user
    ensures Run(vm, ops).Some? ==> !UserReads(Run(vm, ops).value, d, i, j)
    decreases |ops|
  {
    hide Inv, Allowed, Step, Slot, SlotEntry;
    if ops != [] && Allowed(vm, ops[0]) {
      StepOk(vm, ops[0]);
      if Step(vm, ops[0]).Some? {
        StepKeepsEntries(vm, ops[0], d, i);
        SupervisorStays(Step(vm, ops[0]).value, ops[1..], d, i, j);
      }
    }
  }

  // ---------------------------------------------------------------- entries as words

  lemma Doubled(p: bv32)
    requires p < 0x10_0000
    ensures (p << 1) as int == 2 * (p as int) && ((p << 1) | 1) as int == 2 * (p as int) + 1
  {
  }

  lemma Below(p: bv32)
    requires p as int < 0x10_0000
    ensures p < 0x10_0000
  {
  }

  /** `p` is the number `n` as a word, and fits a page table entry. */
  ghost predicate IsFrame(p: bv32, n: int) {
    p as int == n && p < 0x10_0000
  }

  lemma NoFrame() returns (p: bv32)
    ensures IsFrame(p, 0)
  {
    p := 0;
  }

  lemma {:induction false} OneBitMore(p: bv32, n: int, odd: bool) returns (q: bv32)
    requires IsFrame(p, n) && (if odd then 2 * n + 1 else 2 * n) < 0x10_0000
    ensures IsFrame(q, if odd then 2 * n + 1 else 2 * n)
  {
    Doubled(p);
    q := if odd then (p << 1) | 1 else p << 1;
    Below(q);
  }

  lemma {:induction false} FrameWord(n: nat) returns (p: bv32)
    requires n < 0x10_0000
    ensures IsFrame(p, n)
  {
    hide IsFrame;
    if n == 0 {
      p := NoFrame();
    } else {
      var q := FrameWord(n / 2);
      p := OneBitMore(q, n / 2, n % 2 == 1);
    }
  }

  /** A page given a frame holds the word written for that frame, whose number fits its twenty bits. */
  lemma {:induction false} GivenWord<Page>(vm: Vm<Page>, t: int, j: int, kernel: bool, writable: bool)
    requires t in vm.tables && 0 <= j < |vm.tables[t]| && vm.tables[t][j].pfn == 0 && |vm.mem| <= 0x10_0000
    ensures var r := AllocFrame(vm, t, j, kernel, writable);
            r.Some? ==> exists p: bv32 ::
              p < 0x10_0000 && r.value.tables[t][j] == EntryOf(AllocatedWord(p, kernel, writable))
  {
    hide EntryOf, AllocatedWord, AllocFrame;
    AllocFrameExact(vm, t, j, kernel, writable);
    var r := AllocFrame(vm, t, j, kernel, writable);
    if r.Some? {
      var n := r.value.tables[t][j].pfn;
      var p := FrameWord(n);
      AllocatedMeans(p, kernel, writable);
    }
  }

  /** A page that loses its frame holds its old word masked with the writable flag. */
  lemma {:induction false} TakenWord<Page>(vm: Vm<Page>, t: int, j: int, w: bv32)
    requires FramesOk(vm) && t in vm.tables && 0 <= j < ENTRIES && vm.tables[t][j] == EntryOf(w)
    requires vm.tables[t][j].pfn != 0
    ensures FreeFrame(vm, t, j).tables[t][j] == EntryOf(w & RW)
  {
    hide EntryOf, FreeFrame;
    FreeFrameOk(vm, t, j);
    FreedMeans(w);
  }

  /** A copied entry holds the word written for its frame with the flags of the original set one by one. */
  lemma {:induction false} CopiedWord<Page>(vm0: Vm<Page>, v: Vm<Page>, src: int, dst: int, k: int, w: bv32)
    requires src in vm0.tables && dst in v.tables && 0 <= k < |vm0.tables[src]| && k < |v.tables[dst]|
    requires CopyOf(vm0, v, src, dst, k) && vm0.tables[src][k] == EntryOf(w) && vm0.tables[src][k].pfn != 0
    requires |v.mem| <= 0x10_0000
    ensures exists p: bv32 ::
              p < 0x10_0000 && v.tables[dst][k] == EntryOf(FlaggedWord(AllocatedWord(p, false, false), w))
  {
    hide EntryOf, AllocatedWord, FlaggedWord;
    var n := v.tables[dst][k].pfn;
    var p := FrameWord(n);
    AllocatedMeans(p, false, false);
    FlaggedMeans(AllocatedWord(p, false, false), w);
  }
}
