/**
  The RAM disk tool and the kernel's reader as they run: the tool fills its header table and
  appends to the image one entry at a time, the kernel rewrites offsets in place and searches and
  reads by loops. Both end up with exactly what `Initrd` computes.
 */
module InitrdFiles {
  import opened Machine
  import opened Initrd

  class Builder {
    var files: seq<FileHeader>
    var currentOffset: int
    var written: Bytes          // the image from the data area on
    ghost var entries: seq<Item>

    /** The table and the data area are those of the entries seen so far. */
    ghost predicate Valid()
      reads this
    {
      files == Headers(entries) && written == Contents(entries) && currentOffset == DATA + |written|
    }

    constructor ()
      ensures Valid() && entries == []
    {
      files, currentOffset, written, entries := [], DATA, [], [];
    }

    /** The callback for one entry of the walk. */
    method ProcessEntry(e: Item)
      requires Valid() && |files| < SLOTS
      modifies this
      ensures Valid() && entries == old(entries) + [e]
    {
      var number := |files|;
      var f := FileHeader(MAGIC, e.name, 0, 0, e.parent, number, DIRECTORY);
      if e.isFile {
        f := f.(kind := FILE, length := |e.data|, offset := currentOffset);
        written := written + e.data;
        currentOffset := currentOffset + |e.data|;
      }
      files := files + [f];
      ghost var es := entries;
      entries := entries + [e];
      OneMoreEntry(es, e);
    }

    /** Puts the count and the header table in front of the data. */
    method Finish() returns (image: Bytes)
      requires Valid() && |files| <= SLOTS
      ensures image == Image(entries)
    {
      var table: Bytes := [];
      var i := 0;
      while i < |files|
        invariant 0 <= i <= |files| && table == PackedHeaders(files[..i])
      {
        table := table + Packed(files[i]);
        assert files[..i + 1][..i] == files[..i];
        i := i + 1;
      }
      assert files[..i] == files;
      image := Put32(|files|) + table + seq(HEADER * (SLOTS - |files|), _ => 0) + written;
    }
  }

  lemma {:induction false} OneMoreEntry(es: seq<Item>, e: Item)
    ensures Contents(es + [e]) == Contents(es) + (if e.isFile then e.data else [])
    ensures Headers(es + [e]) == Headers(es) + [HeaderOf(es + [e], |es|)]
    ensures (es + [e])[..|es|] == es
  {
    var es' := es + [e];
    assert es'[..|es|] == es;
    forall i | 0 <= i < |es| ensures HeaderOf(es', i) == HeaderOf(es, i) {
      assert es'[..i] == es[..i];
    }
  }

  /** The kernel's view of a RAM disk at address `base`. */
  class Reader {
    const memory: Bytes         // the image as loaded
    const base: int
    var headers: seq<FileHeader>

    constructor (memory: Bytes, base: int)
      requires |memory| >= 4 && 4 + HEADER * Get32(memory[..4]) <= |memory|
      ensures this.memory == memory && this.base == base
      ensures headers == Loaded(memory, base, Get32(memory[..4]))
    {
      this.memory, this.base := memory, base;
      var n := Get32(memory[..4]);
      var hs: seq<FileHeader> := [];
      var i := 0;
      while i < n
        invariant 0 <= i <= n && |hs| == i
        invariant forall k :: 0 <= k < i ==> hs[k] == Loaded(memory, base, n)[k]
      {
        hide Unpacked;
        var h := Slot(memory, i);
        if h.magic == MAGIC {
          h := h.(offset := (h.offset + base) % WORD);
        }
        hs := hs + [h];
        i := i + 1;
      }
      headers := hs;
    }

    /** The search by name, from the root directory or from another one. */
    method FindDir(root: bool, name: Bytes) returns (node: Node)
      ensures node == Lookup(headers, root, name)
    {
      if root && name == DEV {
        return Device;
      }
      var i := 0;
      while i < |headers|
        invariant 0 <= i <= |headers| && Find(headers, name, i) == Find(headers, name, 0)
      {
        if headers[i].name == name {
          return Entry(i);
        }
        i := i + 1;
      }
      node := Nothing;
    }

    /**
      Copies part of a file out of memory; a request past the end is cut off there. A request whose
      end wraps around into the file is not, and would read past the image.
     */
    method ReadFile(node: nat, offset: int, size: int) returns (buffer: Bytes, overrun: bool)
      requires node < |headers| && 0 <= offset < WORD && 0 <= size < WORD
      requires 0 <= headers[node].number < |headers|
      requires var h := headers[headers[node].number];
               0 <= h.length < WORD && 0 <= h.offset - base && h.offset - base + h.length <= |memory|
      ensures var h := headers[headers[node].number];
              && (overrun ==> Wraps(h.length, offset, size))
              && (!overrun && offset <= h.length ==> buffer == ReadAt(memory, base, headers, node, offset, size))
              && (offset > h.length ==> buffer == [] && !overrun)
    {
      var h := headers[headers[node].number];
      DeliveredExactly(h.length, offset, size);
      if offset > h.length {
        return [], false;
      }
      var n := size;
      if (offset + size) % WORD > h.length {
        n := h.length - offset;
      }
      var at := h.offset + offset - base;
      if at + n > |memory| {
        return [], true;
      }
      buffer, overrun := memory[at..at + n], false;
    }
  }
}
