/**
  The initial RAM disk: the image the host tool writes, byte by byte, and what the kernel finds
  in it. Both sides use the same packed structures, so the layout is spelled out here once:
  a count, 128 header slots of 88 bytes, then the file contents.
 */
module Initrd {
  import opened Machine

  type Bytes = seq<byte>

  const MAGIC := 0xDEAD
  const SLOTS := 128
  const HEADER := 88
  const DATA := 4 + HEADER * SLOTS
  const NAME := 64
  const FILE := 1
  const DIRECTORY := 2

  // ---------------------------------------------------------------- numbers

  function Put32(x: int): (r: Bytes)
    ensures |r| == 4
  {
    [x % 256, x / 256 % 256, x / 65536 % 256, x / 16777216 % 256]
  }

  function Get32(b: Bytes): int
    requires |b| == 4
  {
    b[0] as int + 256 * (b[1] as int) + 65536 * (b[2] as int) + 16777216 * (b[3] as int)
  }

  lemma Word32(x: int)
    requires 0 <= x < WORD
    ensures Get32(Put32(x)) == x
  {
    var a, b, c := x / 256, x / 65536, x / 16777216;
    assert x == 256 * a + x % 256;
    assert a == 256 * b + a % 256;
    assert b == 256 * c + b % 256;
  }

  // ---------------------------------------------------------------- names

  /** A name in its field: zero bytes after it, and never more than 63 characters. */
  function Padded(name: Bytes): (r: Bytes)
    ensures |r| == NAME
  {
    if |name| < NAME then name + seq(NAME - |name|, _ => 0) else name[..NAME - 1] + [0]
  }

  /** The string at the front of a field: everything before the first zero byte. */
  function CString(b: Bytes): Bytes {
    if b == [] || b[0] == 0 then [] else [b[0]] + CString(b[1..])
  }

  ghost predicate Proper(name: Bytes) {
    |name| < NAME && forall i :: 0 <= i < |name| ==> name[i] != 0
  }

  lemma {:induction false} NameRoundTrip(name: Bytes, pad: Bytes)
    requires (forall i :: 0 <= i < |name| ==> name[i] != 0) && (pad == [] || pad[0] == 0)
    ensures CString(name + pad) == name
    decreases |name|
  {
    if name == [] {
      assert name + pad == pad;
    } else {
      assert (name + pad)[1..] == name[1..] + pad;
      NameRoundTrip(name[1..], pad);
    }
  }

  lemma {:induction false} PaddedRoundTrip(name: Bytes)
    requires Proper(name)
    ensures CString(Padded(name)) == name
  {
    var pad: Bytes := seq(NAME - |name|, _ => 0);
    assert Padded(name) == name + pad;
    NameRoundTrip(name, pad);
  }

  // ---------------------------------------------------------------- file headers

  datatype FileHeader =
    FileHeader(magic: int, name: Bytes, offset: int, length: int, parent: int, number: int, kind: byte)

  /** The packed header: two bytes of padding after the name and three at the end. */
  function Packed(h: FileHeader): (r: Bytes)
    ensures |r| == HEADER
  {
    [h.magic % 256, h.magic / 256 % 256] + Padded(h.name) + [0, 0] + Put32(h.offset) + Put32(h.length)
    + Put32(h.parent) + Put32(h.number) + [h.kind, 0, 0, 0]
  }

  function Unpacked(b: Bytes): FileHeader
    requires |b| == HEADER
  {
    FileHeader(b[0] as int + 256 * (b[1] as int), CString(b[2..66]), Get32(b[68..72]), Get32(b[72..76]),
               Get32(b[76..80]), Get32(b[80..84]), b[84])
  }

  ghost predicate HeaderOk(h: FileHeader) {
    && 0 <= h.magic < 65536 && Proper(h.name)
    && 0 <= h.offset < WORD && 0 <= h.length < WORD && 0 <= h.parent < WORD && 0 <= h.number < WORD
  }

  lemma {:induction false} HeaderRoundTrip(h: FileHeader)
    requires HeaderOk(h)
    ensures Unpacked(Packed(h)) == h
  {
    hide Packed, Put32, Get32, Padded, CString;
    NameField(h);
    NumberFields(h);
    EdgeFields(h);
    PaddedRoundTrip(h.name);
    Word32(h.offset); Word32(h.length); Word32(h.parent); Word32(h.number);
  }

  lemma {:induction false} NameField(h: FileHeader)
    ensures Packed(h)[2..66] == Padded(h.name)
  {
    hide Put32, Padded;
    var a := [h.magic % 256, h.magic / 256 % 256];
    var z := [0, 0] + Put32(h.offset) + Put32(h.length) + Put32(h.parent) + Put32(h.number) + [h.kind, 0, 0, 0];
    assert Packed(h) == a + Padded(h.name) + z;
  }

  lemma {:induction false} NumberFields(h: FileHeader)
    ensures var b := Packed(h);
            && b[68..72] == Put32(h.offset) && b[72..76] == Put32(h.length)
            && b[76..80] == Put32(h.parent) && b[80..84] == Put32(h.number)
  {
    hide Put32, Padded;
    var a := [h.magic % 256, h.magic / 256 % 256] + Padded(h.name) + [0, 0];
    var o, l, p, n, z := Put32(h.offset), Put32(h.length), Put32(h.parent), Put32(h.number), [h.kind, 0, 0, 0];
    var w := o + l + p + n;
    Fields(a, w, z);
    Regrouped(a, o, l, p, n, z);
    assert Packed(h) == a + w + z;
    FourWords(o, l, p, n);
    SliceOfSlice(Packed(h), 68, 84, 0, 4);
    SliceOfSlice(Packed(h), 68, 84, 4, 8);
    SliceOfSlice(Packed(h), 68, 84, 8, 12);
    SliceOfSlice(Packed(h), 68, 84, 12, 16);
  }

  lemma Regrouped(a: Bytes, o: Bytes, l: Bytes, p: Bytes, n: Bytes, z: Bytes)
    ensures a + o + l + p + n + z == a + (o + l + p + n) + z
  {
  }

  lemma FourWords(o: Bytes, l: Bytes, p: Bytes, n: Bytes)
    requires |o| == |l| == |p| == |n| == 4
    ensures var w := o + l + p + n; w[0..4] == o && w[4..8] == l && w[8..12] == p && w[12..16] == n
  {
  }

  lemma Fields(a: Bytes, b: Bytes, c: Bytes)
    ensures (a + b + c)[|a|..|a| + |b|] == b
  {
  }

  lemma {:induction false} EdgeFields(h: FileHeader)
    requires 0 <= h.magic < 65536
    ensures Packed(h)[0] as int + 256 * (Packed(h)[1] as int) == h.magic && Packed(h)[84] == h.kind
  {
    hide Put32, Padded;
  }

  // ---------------------------------------------------------------- building

  /** One item of the directory tree as the walk reports it. */
  datatype Item = Item(name: Bytes, isFile: bool, data: Bytes, parent: int)

  /** Contents of the first `n` files, one after the other. */
  function Contents(es: seq<Item>): Bytes {
    if es == [] then [] else Contents(es[..|es| - 1]) + (if es[|es| - 1].isFile then es[|es| - 1].data else [])
  }

  /** The header of entry `i`. */
  function HeaderOf(es: seq<Item>, i: nat): FileHeader
    requires i < |es|
  {
    var e := es[i];
    if e.isFile then FileHeader(MAGIC, e.name, DATA + |Contents(es[..i])|, |e.data|, e.parent, i, FILE)
    else FileHeader(MAGIC, e.name, 0, 0, e.parent, i, DIRECTORY)
  }

  function PackedHeaders(hs: seq<FileHeader>): (r: Bytes)
    ensures |r| == HEADER * |hs|
  {
    if hs == [] then [] else PackedHeaders(hs[..|hs| - 1]) + Packed(hs[|hs| - 1])
  }

  function Headers(es: seq<Item>): (r: seq<FileHeader>)
    ensures |r| == |es| && forall i :: 0 <= i < |es| ==> r[i] == HeaderOf(es, i)
  {
    seq(|es|, i requires 0 <= i < |es| => HeaderOf(es, i))
  }

  /** The finished image. */
  function Image(es: seq<Item>): (r: Bytes)
    requires |es| <= SLOTS
    ensures |r| == DATA + |Contents(es)|
  {
    Put32(|es|) + PackedHeaders(Headers(es)) + seq(HEADER * (SLOTS - |es|), _ => 0) + Contents(es)
  }

  // ---------------------------------------------------------------- loading

  /** The header in slot `i` of an image. */
  function Slot(image: Bytes, i: nat): FileHeader
    requires 4 + HEADER * (i + 1) <= |image|
  {
    Unpacked(image[4 + HEADER * i..4 + HEADER * (i + 1)])
  }

  /** The headers after initialisation at address `base`: offsets have become addresses. */
  function Loaded(image: Bytes, base: int, n: nat): (r: seq<FileHeader>)
    requires 4 + HEADER * n <= |image|
    ensures |r| == n
  {
    seq(n, i requires 0 <= i < n =>
      var h := Slot(image, i);
      if h.magic == MAGIC then h.(offset := (h.offset + base) % WORD) else h)
  }

  /** The first node with that name, or -1. */
  function Find(hs: seq<FileHeader>, name: Bytes, from: nat): (r: int)
    ensures r == -1 || from <= r < |hs|
    decreases |hs| - from
  {
    if from >= |hs| then -1 else if hs[from].name == name then from else Find(hs, name, from + 1)
  }

  const DEV: Bytes := [100, 101, 118]   // "dev"

  datatype Node = Device | Entry(index: nat) | Nothing

  /** What a name means: below the root, "dev" is always the device directory. */
  function Lookup(hs: seq<FileHeader>, root: bool, name: Bytes): Node {
    if root && name == DEV then Device
    else var i := Find(hs, name, 0); if i == -1 then Nothing else Entry(i)
  }

  /** How many bytes a read delivers. */
  function Delivered(length: int, offset: int, size: int): int {
    if offset > length then 0 else if (offset + size) % WORD > length then length - offset else size
  }

  // ---------------------------------------------------------------- where things are

  lemma {:induction false} HeaderSlice(hs: seq<FileHeader>, i: nat)
    requires i < |hs|
    ensures PackedHeaders(hs)[HEADER * i..HEADER * (i + 1)] == Packed(hs[i])
    decreases |hs|
  {
    hide Packed;
    var n := |hs| - 1;
    if i < n {
      HeaderSlice(hs[..n], i);
      assert PackedHeaders(hs)[HEADER * i..HEADER * (i + 1)] == PackedHeaders(hs[..n])[HEADER * i..HEADER * (i + 1)];
    }
  }

  lemma {:induction false} ContentsSlice(es: seq<Item>, i: nat)
    requires i < |es| && es[i].isFile
    ensures var at := |Contents(es[..i])|;
            at + |es[i].data| <= |Contents(es)| && Contents(es)[at..at + |es[i].data|] == es[i].data
    decreases |es|
  {
    var n := |es| - 1;
    if i < n {
      ContentsSlice(es[..n], i);
      assert es[..n][..i] == es[..i];
    }
  }

  lemma {:induction false} ImageParts(es: seq<Item>)
    requires |es| <= SLOTS
    ensures |Image(es)| == DATA + |Contents(es)|
    ensures Image(es)[..4] == Put32(|es|)
    ensures Image(es)[4..4 + HEADER * |es|] == PackedHeaders(Headers(es))
    ensures Image(es)[DATA..] == Contents(es)
  {
    hide Put32, Contents, PackedHeaders, Headers;
    Laid(Put32(|es|), PackedHeaders(Headers(es)), seq(HEADER * (SLOTS - |es|), _ => 0), Contents(es));
  }

  /** Where the four parts of an image lie. */
  lemma Laid(a: Bytes, b: Bytes, c: Bytes, d: Bytes)
    ensures var s, m, n := a + b + c + d, |a| + |b|, |a| + |b| + |c|;
            |s| == n + |d| && s[..|a|] == a && s[|a|..m] == b && s[n..] == d
  {
  }

  /** Slot `i` of the finished image holds the header of entry `i`. */
  lemma {:induction false} SlotHolds(es: seq<Item>, i: nat)
    requires |es| <= SLOTS && i < |es| && HeaderOk(HeaderOf(es, i))
    ensures 4 + HEADER * (i + 1) <= |Image(es)| && Slot(Image(es), i) == HeaderOf(es, i)
  {
    hide Image, Packed, PackedHeaders, Contents, HeaderOf, Unpacked;
    ImageParts(es);
    HeaderSlice(Headers(es), i);
    SliceOfSlice(Image(es), 4, 4 + HEADER * |es|, HEADER * i, HEADER * (i + 1));
    HeaderRoundTrip(HeaderOf(es, i));
  }

  // ---------------------------------------------------------------- the round trip

  /** What the builder can represent: up to 128 entries with different, proper names, all within 32 bits. */
  ghost predicate Buildable(es: seq<Item>, base: int) {
    && |es| <= SLOTS && 0 <= base && base + DATA + |Contents(es)| < WORD
    && (forall i :: 0 <= i < |es| ==> Proper(es[i].name) && 0 <= es[i].parent < WORD)
    && (forall i, j :: 0 <= i < j < |es| ==> es[i].name != es[j].name)
  }

  lemma {:induction false} BuildableHeader(es: seq<Item>, base: int, i: nat)
    requires Buildable(es, base) && i < |es|
    ensures HeaderOk(HeaderOf(es, i))
    ensures HeaderOf(es, i).offset + HeaderOf(es, i).length <= DATA + |Contents(es)|
  {
    if es[i].isFile { ContentsSlice(es, i); }
  }

  /** Loading a built image gives back every header, with its offset turned into an address. */
  lemma {:induction false} LoadedHeaders(es: seq<Item>, base: int)
    requires Buildable(es, base)
    ensures 4 + HEADER * |es| <= |Image(es)| && Get32(Image(es)[..4]) == |es|
    ensures var hs := Loaded(Image(es), base, |es|);
            forall i :: 0 <= i < |es| ==> hs[i] == HeaderOf(es, i).(offset := HeaderOf(es, i).offset + base)
  {
    hide Image, Loaded, HeaderOf, Contents, Proper, Put32, Get32;
    ImageParts(es);
    Word32(|es|);
    forall i | 0 <= i < |es|
      ensures Loaded(Image(es), base, |es|)[i] == HeaderOf(es, i).(offset := HeaderOf(es, i).offset + base)
    {
      LoadedHeader(es, base, i);
    }
  }

  lemma {:induction false} LoadedHeader(es: seq<Item>, base: int, i: nat)
    requires Buildable(es, base) && i < |es|
    ensures Loaded(Image(es), base, |es|)[i] == HeaderOf(es, i).(offset := HeaderOf(es, i).offset + base)
  {
    hide Image, Slot, HeaderOf, Contents, Proper;
    BuildableHeader(es, base, i);
    SlotHolds(es, i);
    HeaderMagic(es, i);
    var h := HeaderOf(es, i);
    assert 0 <= h.offset + base < WORD && (h.offset + base) % WORD == h.offset + base;
  }

  lemma {:induction false} HeaderMagic(es: seq<Item>, i: nat)
    requires i < |es|
    ensures HeaderOf(es, i).magic == MAGIC && HeaderOf(es, i).name == es[i].name && HeaderOf(es, i).length >= 0
    ensures es[i].isFile ==>
              HeaderOf(es, i).length == |es[i].data| && HeaderOf(es, i).offset == DATA + |Contents(es[..i])|
    ensures HeaderOf(es, i).number == i && HeaderOf(es, i).parent == es[i].parent
    ensures HeaderOf(es, i).kind == if es[i].isFile then FILE else DIRECTORY
    ensures !es[i].isFile ==> HeaderOf(es, i).length == 0
  {
  }

  /** What the kernel makes of the type in a header. */
  datatype Kind = File | Directory | Unknown

  function KindOf(h: FileHeader): Kind {
    if h.kind == FILE then File else if h.kind == DIRECTORY then Directory else Unknown
  }

  /**
    The nodes of a loaded image describe the entries that were put in: name, kind, size and parent, and a
    number that leads back to the node itself.
   */
  lemma {:induction false} LoadedNode(es: seq<Item>, base: int, i: nat)
    requires Buildable(es, base) && i < |es|
    ensures var h := Loaded(Image(es), base, |es|)[i];
            && h.name == es[i].name && h.parent == es[i].parent && h.number == i
            && (KindOf(h) == File <==> es[i].isFile) && (KindOf(h) == Directory <==> !es[i].isFile)
            && h.length == if es[i].isFile then |es[i].data| else 0
  {
    hide Image, Loaded, HeaderOf, Contents, Proper;
    LoadedHeaders(es, base);
    HeaderMagic(es, i);
  }

  /** What a name means, exactly: the device directory, the first node of that name, or nothing if there is none. */
  lemma {:induction false} LookupExact(hs: seq<FileHeader>, root: bool, name: Bytes)
    ensures Lookup(hs, root, name) == Device <==> root && name == DEV
    ensures Lookup(hs, root, name) == Nothing <==>
            !(root && name == DEV) && forall k :: 0 <= k < |hs| ==> hs[k].name != name
    ensures forall i: nat ::
              Lookup(hs, root, name) == Entry(i) <==>
              !(root && name == DEV) && IsFirst(hs, name, i)
  {
    FindExact(hs, name, 0);
  }

  predicate IsFirst(hs: seq<FileHeader>, name: Bytes, i: nat) {
    i < |hs| && hs[i].name == name && forall k :: 0 <= k < i ==> hs[k].name != name
  }

  lemma {:induction false} FindExact(hs: seq<FileHeader>, name: Bytes, from: nat)
    ensures var r := Find(hs, name, from);
            if r == -1 then forall k :: from <= k < |hs| ==> hs[k].name != name
            else hs[r].name == name && forall k :: from <= k < r ==> hs[k].name != name
    decreases |hs| - from
  {
    if from < |hs| && hs[from].name != name { FindExact(hs, name, from + 1); }
  }

  lemma {:induction false} FindFirst(hs: seq<FileHeader>, name: Bytes, from: nat, i: nat)
    requires from <= i < |hs| && hs[i].name == name && forall k :: from <= k < i ==> hs[k].name != name
    ensures Find(hs, name, from) == i
    decreases i - from
  {
    if from < i { FindFirst(hs, name, from + 1, i); }
  }

  /** What a read of a loaded image delivers: the bytes at the address in the header that the node's number names. */
  function ReadAt(image: Bytes, base: int, hs: seq<FileHeader>, node: nat, offset: int, size: int): Bytes
    requires node < |hs|
  {
    var i := hs[node].number;
    if 0 <= i < |hs| then
      var n := Delivered(hs[i].length, offset, size);
      var at := hs[i].offset + offset - base;
      if 0 <= at && 0 <= n && at + n <= |image| then image[at..at + n] else []
    else []
  }

  /** The end of a read wraps around to somewhere inside the file. */
  predicate Wraps(length: int, offset: int, size: int) {
    offset <= length && offset + size >= WORD && offset + size - WORD <= length
  }

  /** The exact condition: a read stays within the file if and only if its end does not wrap into the file. */
  lemma {:induction false} DeliveredExactly(length: int, offset: int, size: int)
    requires 0 <= length < WORD && 0 <= offset < WORD && 0 <= size < WORD
    ensures offset <= length ==> (offset + Delivered(length, offset, size) <= length <==> !Wraps(length, offset, size))
    ensures offset <= length && !Wraps(length, offset, size) ==>
              offset + Delivered(length, offset, size) == Reach(length, offset, size)
  {
    if offset + size >= WORD {
      assert (offset + size) % WORD == offset + size - WORD;
    } else {
      assert (offset + size) % WORD == offset + size;
    }
  }

  /** How far a read of `total` bytes from `offset` gets in a file of `length` bytes. */
  function Reach(length: nat, offset: nat, total: nat): nat {
    if offset + total > length then length else offset + total
  }

  /** In a loaded image every entry is found under its own name. */
  lemma {:induction false} FindTrip(es: seq<Item>, base: int, i: nat)
    requires Buildable(es, base) && i < |es|
    ensures es[i].name != DEV ==> Lookup(Loaded(Image(es), base, |es|), true, es[i].name) == Entry(i)
    ensures Lookup(Loaded(Image(es), base, |es|), false, es[i].name) == Entry(i)
  {
    hide Image, Loaded, HeaderOf, Contents, Proper;
    var hs := Loaded(Image(es), base, |es|);
    LoadedHeaders(es, base);
    forall k | 0 <= k <= i ensures hs[k].name == es[k].name {
      HeaderMagic(es, k);
    }
    FindFirst(hs, es[i].name, 0, i);
  }

  /**
    The round trip. Reading a file of a loaded image from any offset delivers exactly the bytes
    that were put in, cut off at the end of the file.
   */
  lemma {:induction false} RoundTrip(es: seq<Item>, base: int, i: nat, offset: int, size: int)
    requires Buildable(es, base) && i < |es| && es[i].isFile
    requires 0 <= offset <= |es[i].data| && 0 <= size < WORD && !Wraps(|es[i].data|, offset, size)
    ensures ReadAt(Image(es), base, Loaded(Image(es), base, |es|), i, offset, size) ==
            es[i].data[offset..Reach(|es[i].data|, offset, size)]
  {
    hide Image, Loaded, HeaderOf, Contents, Proper, Delivered;
    LoadedHeaders(es, base);
    HeaderMagic(es, i);
    FileSmall(es, base, i);
    DeliveredExactly(|es[i].data|, offset, size);
    ReadsData(es, i, offset, Delivered(|es[i].data|, offset, size));
  }

  lemma {:induction false} FileSmall(es: seq<Item>, base: int, i: nat)
    requires Buildable(es, base) && i < |es| && es[i].isFile
    ensures |es[i].data| < WORD
  {
    ContentsSlice(es, i);
  }

  /** The bytes of a file, where its header says they are. */
  lemma {:induction false} ReadsData(es: seq<Item>, i: nat, offset: int, n: int)
    requires |es| <= SLOTS && i < |es| && es[i].isFile && 0 <= offset && 0 <= n && offset + n <= |es[i].data|
    ensures var at := DATA + |Contents(es[..i])| + offset;
            at + n <= |Image(es)| && Image(es)[at..at + n] == es[i].data[offset..offset + n]
  {
    hide Image, Contents;
    ImageParts(es);
    ContentsSlice(es, i);
    Window(Image(es), Contents(es), es[i].data, DATA, |Contents(es[..i])|, offset, n);
  }

  lemma SliceOfSlice(s: Bytes, a: nat, b: nat, c: nat, d: nat)
    requires a <= b <= |s| && c <= d <= b - a
    ensures s[a..b][c..d] == s[a + c..a + d]
  {
    forall k | 0 <= k < d - c ensures s[a..b][c..d][k] == s[a + c..a + d][k] {
    }
  }

  /** A window into a part of a part. */
  lemma {:induction false} Window(whole: Bytes, part: Bytes, piece: Bytes, a: nat, b: nat, offset: nat, n: nat)
    requires a <= |whole| && whole[a..] == part
    requires b + |piece| <= |part| && part[b..b + |piece|] == piece && offset + n <= |piece|
    ensures a + b + offset + n <= |whole|
    ensures whole[a + b + offset..a + b + offset + n] == piece[offset..offset + n]
  {
    var w, p := whole[a + b + offset..a + b + offset + n], piece[offset..offset + n];
    forall k | 0 <= k < n ensures w[k] == p[k] {
      assert w[k] == whole[a..][b + offset + k] && p[k] == part[b..b + |piece|][offset + k];
    }
  }

  // ---------------------------------------------------------------- reading in pieces

  /** Consecutive reads of the given sizes, each starting where the last one stopped. */
  function ReadPieces(image: Bytes, base: int, hs: seq<FileHeader>, node: nat, offset: int, sizes: seq<nat>): Bytes
    requires node < |hs|
    decreases |sizes|
  {
    if sizes == [] then []
    else
      var piece := ReadAt(image, base, hs, node, offset, sizes[0]);
      piece + ReadPieces(image, base, hs, node, offset + |piece|, sizes[1..])
  }

  function Total(sizes: seq<nat>): nat {
    if sizes == [] then 0 else sizes[0] + Total(sizes[1..])
  }

  lemma OneMorePiece(image: Bytes, base: int, hs: seq<FileHeader>, node: nat, offset: int, sizes: seq<nat>)
    requires node < |hs| && sizes != []
    ensures var piece := ReadAt(image, base, hs, node, offset, sizes[0]);
            ReadPieces(image, base, hs, node, offset, sizes) ==
            piece + ReadPieces(image, base, hs, node, offset + |piece|, sizes[1..])
    ensures Total(sizes) == sizes[0] + Total(sizes[1..])
  {
  }

  lemma NoPieces(image: Bytes, base: int, hs: seq<FileHeader>, node: nat, offset: int)
    requires node < |hs|
    ensures ReadPieces(image, base, hs, node, offset, []) == [] && Total([]) == 0
  {
  }

  /** No read of the sequence has an end that wraps into the file. */
  predicate NoneWraps(length: nat, offset: nat, sizes: seq<nat>)
    decreases |sizes|
  {
    sizes != [] ==>
      && sizes[0] < WORD && !Wraps(length, offset, sizes[0])
      && NoneWraps(length, Reach(length, offset, sizes[0]), sizes[1..])
  }

  /** Any consecutive reads of which none wraps concatenate to the file, as far as they reach. */
  lemma {:induction false} PiecesRoundTrip(es: seq<Item>, base: int, i: nat, offset: int, sizes: seq<nat>)
    requires Buildable(es, base) && i < |es| && es[i].isFile
    requires 0 <= offset <= |es[i].data| && NoneWraps(|es[i].data|, offset, sizes)
    ensures ReadPieces(Image(es), base, Loaded(Image(es), base, |es|), i, offset, sizes) ==
            es[i].data[offset..Reach(|es[i].data|, offset, Total(sizes))]
    decreases |sizes|
  {
    hide Image, Loaded, ReadAt, Find, Lookup, ReadPieces, Total;
    var img, hs, data := Image(es), Loaded(Image(es), base, |es|), es[i].data;
    if sizes == [] {
      NoPieces(img, base, hs, i, offset);
    } else {
      OneMorePiece(img, base, hs, i, offset, sizes);
      RoundTrip(es, base, i, offset, sizes[0]);
      var middle := Reach(|data|, offset, sizes[0]);
      PiecesRoundTrip(es, base, i, middle, sizes[1..]);
      Joined(data, offset, middle, Reach(|data|, offset, Total(sizes)));
    }
  }

  lemma Joined(s: Bytes, a: nat, b: nat, c: nat)
    requires a <= b <= c <= |s|
    ensures s[a..b] + s[b..c] == s[a..c] && |s[a..b]| == b - a
  {
  }
}
