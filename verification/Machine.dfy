/**
  The machine all parts share: bytes, 32-bit words, 4096-byte pages and the kernel's memory map.
 */
module Machine {

  type byte = x: int | 0 <= x < 256

  const WORD := 0x1_0000_0000
  const PAGE := 4096

  // Where the kernel's heap starts, its first size and its maximum size.
  const KHEAP_START := 0xC000_0000
  const KHEAP_INITIAL := 0x10_0000
  const KHEAP_MAX := 0xCFFF_F000

  /** 32-bit wrap-around. */
  function Wrap(x: int): int {
    x % WORD
  }

  /** Rounding up to a page boundary, in 32 bits. */
  function AlignUp(x: int): int {
    var w := Wrap(x + PAGE - 1);
    w - w % PAGE
  }

  lemma WrapSmall(x: int)
    requires 0 <= x < WORD
    ensures Wrap(x) == x
  {
  }

  lemma AlignUpRounds(x: int)
    requires 0 <= x && x + PAGE - 1 < WORD
    ensures x <= AlignUp(x) < x + PAGE && AlignUp(x) % PAGE == 0
  {
    var w := x + PAGE - 1;
    WrapSmall(w);
    assert (w - w % PAGE) % PAGE == 0;
  }

  lemma AlignUpBelow(x: int)
    requires 0 <= x < WORD
    ensures 0 <= AlignUp(x) <= WORD - PAGE && AlignUp(x) % PAGE == 0 && AlignUp(x) <= x + PAGE - 1
    ensures x + PAGE - 1 >= WORD ==> AlignUp(x) == 0
  {
    var w := Wrap(x + PAGE - 1);
    assert (w - w % PAGE) % PAGE == 0;
  }

  lemma AlignUpMonotone(x: int, y: int)
    requires 0 <= x <= y && y + PAGE - 1 < WORD
    ensures AlignUp(x) <= AlignUp(y)
  {
    AlignUpRounds(x);
    AlignUpRounds(y);
    var i, j := AlignUp(x) / PAGE, AlignUp(y) / PAGE;
    assert AlignUp(x) == i * PAGE && AlignUp(y) == j * PAGE;
  }
}
