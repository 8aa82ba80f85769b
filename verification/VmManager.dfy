/**
  Page tables as the kernel changes them: entries are rewritten in place, cloning runs in loops,
  and frames come from the frame allocator. Every method turns memory into exactly the value the
  corresponding function of `Paging` computes.
 */
module VmManager {
  import opened Machine
  import opened Paging
  import FA = FrameAllocator
  import Buddy

  /** The frame allocator answers with the lowest frame not handed out. */
  lemma {:induction false} AllocatorAnswers(lv: Buddy.Levels, held: set<int>)
    requires Buddy.Tracks(lv, held)
    ensures Buddy.Pmalloc(lv, 0).1 == LowestFree(held, 0, |lv[0]|)
    ensures var (lv', r) := Buddy.Pmalloc(lv, 0);
            && |lv'| == |lv| && |lv'[0]| == |lv[0]|
            && Buddy.Tracks(lv', if r == -1 then held else held + {r})
  {
    Buddy.FrameStepTracks(Buddy.Frames(lv, held), Buddy.Take);
  }

  /** An address is its two indices and the place in the page. */
  lemma TwoIndices(vaddr: int)
    requires 0 <= vaddr < WORD
    ensures vaddr / SPAN < ENTRIES
    ensures vaddr == vaddr / SPAN * SPAN + vaddr / PAGE % ENTRIES * PAGE + vaddr % PAGE
  {
    var p := vaddr / PAGE;
    assert p / ENTRIES == vaddr / SPAN;
    assert p == p / ENTRIES * ENTRIES + p % ENTRIES;
  }

  class VmManager<Page> {
    var tables: Tables
    var dirs: map<int, Dir>
    var kernel: int
    var mem: seq<Page>
    const frames: FA.FrameAllocator
    ghost var held: set<int>

    constructor (frames: FA.FrameAllocator, mem: seq<Page>)
      requires frames.Valid() && |mem| == |frames.View()[0]| && forall f :: 0 <= f < |mem| ==> frames.View()[0][f]
      ensures Valid() && tables == map[] && dirs == map[] && this.mem == mem && held == {} && this.frames == frames
    {
      hide FA.FrameAllocator.View, FA.FrameAllocator.Bits, FA.FrameAllocator.Valid, FA.FrameAllocator.Ready;
      this.frames, this.mem, tables, dirs, kernel, held := frames, mem, map[], map[], 0, {};
    }

    ghost function State(): Vm<Page>
      reads this
    {
      Vm(tables, dirs, kernel, held, mem)
    }

    /** The frame allocator agrees about which frames are out. */
    ghost predicate Valid()
      reads this, frames, frames.bitmaps
    {
      frames.Valid() && Buddy.Tracks(frames.View(), held) && |mem| == |frames.View()[0]|
    }

    method AllocPage(t: int, j: int, asKernel: bool, writable: bool) returns (ok: bool)
      requires Valid() && t in tables && 0 <= j < |tables[t]|
      modifies this`tables, this`held, frames.bitmaps
      ensures Valid()
      ensures var r := AllocFrame(old(State()), t, j, asKernel, writable);
              ok == r.Some? && State() == if ok then r.value else old(State())
      ensures ok && old(State()).tables[t][j].pfn == 0 ==> Given(old(State()), State(), t, j, asKernel, writable)
    {
      hide Buddy.Pmalloc, Buddy.Tracks, Buddy.Shaped, FA.FrameAllocator.View, FA.FrameAllocator.Bits, Given, LowestFree;
      AllocFrameExact(State(), t, j, asKernel, writable);
      ok := true;
      if tables[t][j].pfn != 0 {
        return;
      }
      AllocatorAnswers(frames.View(), held);
      var pfn := frames.PmallocOrder(0);
      if pfn == -1 {
        return false;
      }
      tables := tables[t := tables[t][j := Pte(pfn, true, writable, !asKernel, false, false)]];
      held := held + {pfn};
    }

    method FreePage(t: int, j: int)
      requires Valid() && FramesOk(State()) && t in tables && 0 <= j < |tables[t]|
      modifies this`tables, this`held, frames.bitmaps
      ensures Valid() && State() == FreeFrame(old(State()), t, j)
    {
      hide Buddy.Pmalloc, Buddy.Shaped, FA.FrameAllocator.View, FA.FrameAllocator.Bits;
      var pfn := tables[t][j].pfn;
      if pfn == 0 {
        return;
      }
      assert Frame(tables, t, j) == pfn && pfn in held;
      Buddy.FrameStepTracks(Buddy.Frames(frames.View(), held), Buddy.Give(pfn));
      frames.PfreeFrame(pfn);
      tables := tables[t := tables[t][j := CLEAR.(rw := tables[t][j].rw)]];
      held := held - {pfn};
    }

    /** The entry for a virtual address: its table and its index; a missing table is created on request. */
    method GetPage(vaddr: int, d: int, create: bool, place: Place) returns (t: int, j: int)
      requires 0 <= vaddr < WORD && d in dirs && DirOk(State(), dirs[d])
      modifies this`tables, this`dirs
      ensures j == vaddr / PAGE % ENTRIES
      ensures vaddr / SPAN < ENTRIES && vaddr == vaddr / SPAN * SPAN + j * PAGE + vaddr % PAGE
      ensures State() ==
              if create then EnsureTable(old(State()), d, vaddr / SPAN, place.addr, place.paddr) else old(State())
      ensures t == Slot(State(), d, vaddr / SPAN)
    {
      TwoIndices(vaddr);
      var i := vaddr / SPAN;
      j := vaddr / PAGE % ENTRIES;
      t := dirs[d].tables[i];
      if t == 0 && create {
        t := place.addr;
        tables := tables[t := BlankTable()];
        dirs := dirs[d := Dir(dirs[d].tables[i := t], dirs[d].entries[i := Pde(place.paddr, true, true, false)])];
      }
    }

    /** Copies a table entry by entry into a new one. */
    method ClonePageTable(src: int, dst: int) returns (ok: bool)
      requires Valid() && FramesOk(State()) && src in tables && dst !in tables && dst != 0
      modifies this`tables, this`held, this`mem, frames.bitmaps
      ensures Valid()
      ensures var r := CloneTable(old(State()), src, dst);
              ok == r.Some? && (ok ==> State() == r.value)
    {
      hide Buddy.Tracks, Buddy.Shaped, FA.FrameAllocator.View, FA.FrameAllocator.Bits, Unique, AllHeld;
      hide AllocFrame, CloneEntry, CopyOf, Extends;
      ghost var vm0 := State();
      StartClone(vm0, src, dst);
      tables := tables[dst := EmptyTable()];
      ghost var goal := CloneEntries(State(), src, dst, 0);
      var j := 0;
      ok := true;
      while j < ENTRIES
        invariant 0 <= j <= ENTRIES && Valid() && FramesOk(State()) && Progress(vm0, State(), src, dst, j)
        invariant CloneEntries(State(), src, dst, j) == goal
      {
        CloneEntryOk(vm0, State(), src, dst, j);
        ok := CloneOne(src, dst, j);
        if !ok {
          return;
        }
        j := j + 1;
      }
    }

    /** One entry: a blank for a blank, or a new frame with the same contents and flags. */
    method CloneOne(src: int, dst: int, j: int) returns (ok: bool)
      requires Valid() && FramesOk(State()) && src in tables && dst in tables && 0 <= j < ENTRIES
      requires src != dst && tables[dst][j] == CLEAR
      modifies this`tables, this`held, this`mem, frames.bitmaps
      ensures Valid()
      ensures var r := CloneEntry(old(State()), src, dst, j);
              ok == r.Some? && (ok ==> State() == r.value)
    {
      hide Buddy.Tracks, Buddy.Shaped, FA.FrameAllocator.View, FA.FrameAllocator.Bits, Unique;
      var e := tables[src][j];
      if e.pfn == 0 {
        tables := tables[dst := tables[dst][j := BLANK]];
        return true;
      }
      assert Frame(tables, src, j) == e.pfn && e.pfn in held;
      AllocFrameOk(State(), dst, j, false, false);
      ok := AllocPage(dst, j, false, false);
      if !ok {
        return;
      }
      var f := tables[dst][j];
      assert Frame(tables, dst, j) == f.pfn && f.pfn in held;
      tables := tables[dst := tables[dst][j := Pte(f.pfn, f.present || e.present, f.rw || e.rw, f.user || e.user,
                                                   f.accessed || e.accessed, f.dirty || e.dirty)]];
      mem := mem[f.pfn := mem[e.pfn]];
    }

    /** Copies a directory slot by slot: kernel tables are linked, all others copied. */
    method ClonePageDirectory(src: int, dst: int, places: seq<Place>) returns (ok: bool)
      requires Valid() && Inv(State()) && src in dirs && dst !in dirs && Unused(State(), places, 0)
      modifies this`tables, this`dirs, this`held, this`mem, frames.bitmaps
      ensures Valid()
      ensures var r := CloneDir(old(State()), src, dst, places);
              ok == r.Some? && (ok ==> State() == r.value && Inv(State()))
    {
      hide Buddy.Tracks, Buddy.Shaped, FA.FrameAllocator.View, FA.FrameAllocator.Bits,
           FramesOk, SharedOnlyKernel, Extends, CloneSlot, SlotCopied;
      ghost var vm0 := State();
      StartDir(vm0, src, dst, places);
      dirs := dirs[dst := EmptyDir()];
      ghost var goal := CloneSlots(State(), src, dst, places, 0);
      var i := 0;
      ok := true;
      while i < ENTRIES
        invariant 0 <= i <= ENTRIES && Valid() && Inv(State()) && DirProgress(vm0, State(), src, dst, places, i)
        invariant CloneSlots(State(), src, dst, places, i) == goal
      {
        CloneSlotOk(vm0, State(), src, dst, places, i);
        ok := CloneOneSlot(src, dst, places, i);
        if !ok {
          return;
        }
        i := i + 1;
      }
    }

    /** One slot: nothing, a link to the kernel's table, or a copied table. */
    method CloneOneSlot(src: int, dst: int, places: seq<Place>, i: int) returns (ok: bool)
      requires Valid() && Inv(State()) && 0 <= i < ENTRIES && Followable(State(), src, dst, places, i)
      requires places[i].addr !in tables && places[i].addr != 0
      modifies this`tables, this`dirs, this`held, this`mem, frames.bitmaps
      ensures Valid()
      ensures var r := CloneSlot(old(State()), src, dst, places, i);
              ok == r.Some? && (ok ==> State() == r.value)
    {
      hide Buddy.Tracks, Buddy.Shaped, FA.FrameAllocator.View, FA.FrameAllocator.Bits,
           FramesOk, SharedOnlyKernel, Progress, CloneTable;
      var s := dirs[src].tables[i];
      ok := true;
      if s == 0 {
        assert dirs[dst].tables[i := dirs[dst].tables[i]] == dirs[dst].tables;
        dirs := dirs[dst := Dir(dirs[dst].tables, dirs[dst].entries[i := NO_TABLE])];
      } else if s == dirs[kernel].tables[i] {
        dirs := dirs[dst := Dir(dirs[dst].tables[i := s], dirs[dst].entries[i := dirs[src].entries[i]])];
      } else {
        ok := ClonePageTable(s, places[i].addr);
        if !ok {
          return;
        }
        dirs := dirs[dst := Dir(dirs[dst].tables[i := places[i].addr],
                                dirs[dst].entries[i := Pde(places[i].paddr, true, true, true)])];
      }
    }
  }
}
