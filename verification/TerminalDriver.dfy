/**
  The terminal as the kernel runs it: two cursor variables and a frame buffer of coloured cells,
  scrolled by copying loops. The characters always are exactly what `Terminal` computes.
 */
module TerminalDriver {
  import opened Machine
  import opened Terminal

  datatype Cell = Cell(ch: byte, color: byte)

  /** The characters of a stretch of cells. */
  function Chars(cells: seq<Cell>): (r: seq<byte>)
    ensures |r| == |cells|
  {
    seq(|cells|, i requires 0 <= i < |cells| => cells[i].ch)
  }

  class Tty {
    var x: int
    var y: int
    var color: byte
    const buffer: array<Cell>

    /** The buffer has the size of the screen. */
    ghost predicate Valid()
      reads this, buffer
    {
      buffer.Length == CELLS && Ok(View())
    }

    ghost function View(): Screen
      reads this, buffer
    {
      Screen(Chars(buffer[..]), x, y)
    }

    /** A cleared screen. */
    constructor ()
      ensures Valid() && View() == CLEARED && fresh(buffer)
    {
      x, y, color := 0, 0, 7;
      buffer := new Cell[CELLS](_ => Cell(BLANK, 7));
    }

    method PutEntryAt(c: byte, color: byte, x: int, y: int)
      requires buffer.Length == CELLS && 0 <= x < WIDTH && 0 <= y < HEIGHT
      modifies buffer
      ensures Chars(buffer[..]) == old(Chars(buffer[..]))[y * WIDTH + x := c]
    {
      buffer[y * WIDTH + x] := Cell(c, color);
    }

    method DeleteLastLine()
      requires buffer.Length == CELLS
      modifies buffer
      ensures Chars(buffer[..]) == old(Chars(buffer[..]))[..CELLS - WIDTH] + seq(WIDTH, _ => BLANK)
    {
      var index := (HEIGHT - 1) * WIDTH;
      while index < HEIGHT * WIDTH
        invariant (HEIGHT - 1) * WIDTH <= index <= HEIGHT * WIDTH
        invariant forall p :: 0 <= p < CELLS - WIDTH ==> buffer[p] == old(buffer[p])
        invariant forall p :: CELLS - WIDTH <= p < index ==> buffer[p].ch == BLANK
      {
        buffer[index] := Cell(BLANK, color);
        index := index + 1;
      }
    }

    /** Copies one row onto the row above it. */
    method Scroll(line: int)
      requires buffer.Length == CELLS && 1 <= line < HEIGHT
      modifies buffer
      ensures forall p :: 0 <= p < CELLS ==>
                buffer[p] == if (line - 1) * WIDTH <= p < line * WIDTH then old(buffer[p + WIDTH]) else old(buffer[p])
    {
      var index := line * WIDTH;
      while index < (line + 1) * WIDTH
        invariant line * WIDTH <= index <= (line + 1) * WIDTH
        invariant forall p :: 0 <= p < CELLS ==>
                    buffer[p] ==
                    if (line - 1) * WIDTH <= p < index - WIDTH then old(buffer[p + WIDTH]) else old(buffer[p])
      {
        buffer[index - WIDTH] := buffer[index];
        index := index + 1;
      }
    }

    /** Copies all rows up and blanks the last. */
    method ScrollAll()
      requires buffer.Length == CELLS
      modifies buffer
      ensures Chars(buffer[..]) == Scrolled(old(Chars(buffer[..])))
    {
      var line := 1;
      while line < HEIGHT
        invariant 1 <= line <= HEIGHT
        invariant forall p :: 0 <= p < CELLS ==>
                    buffer[p] == if p < (line - 1) * WIDTH then old(buffer[p + WIDTH]) else old(buffer[p])
      {
        Scroll(line);
        line := line + 1;
      }
      ghost var moved, was := Chars(buffer[..]), old(Chars(buffer[..]));
      assert forall p :: 0 <= p < CELLS - WIDTH ==> moved[p] == was[p + WIDTH];
      assert moved[..CELLS - WIDTH] == was[WIDTH..];
      DeleteLastLine();
    }

    method PutChar(c: byte)
      requires Valid()
      modifies this`x, this`y, buffer
      ensures Valid() && View() == Terminal.PutChar(old(View()), c)
    {
      PutCharOk(View(), c);
      if c == NEWLINE {
        x := 0;
        y := y + 1;
      } else if c != NUL {
        PutEntryAt(c, color, x, y);
        x := x + 1;
      }
      if x == WIDTH {
        x := 0;
        y := y + 1;
      }
      if y == HEIGHT {
        ScrollAll();
        x := 0;
        y := HEIGHT - 1;
      }
    }

    /**
      Steps back, blanks the cell and steps back again. Nothing stops the first step in the first
      cell: the row then wraps to -1, and the blank would go to the cell before the buffer.
     */
    method Backspace() returns (strayed: bool)
      requires Valid()
      modifies this`x, this`y, buffer
      ensures strayed <==> At(old(View())) == 0
      ensures !strayed ==> Valid() && View() == Terminal.Backspace(old(View()))
      ensures strayed ==> y * WIDTH + x == -1 && buffer[..] == old(buffer[..])
    {
      StepBack();
      if y < 0 {
        return true;
      }
      PutChar(BLANK);
      BackAgain(old(View()));
      StepBack();
      strayed := false;
    }

    /** Moves the cursor back by one, to the row above if need be. */
    method StepBack()
      modifies this`x, this`y
      ensures View() == Back(old(View()))
    {
      if x - 1 < 0 {
        y := y - 1;
        x := WIDTH - (1 - x);
      } else {
        x := x - 1;
      }
    }
  }

  /** Writing at the cell before the cursor brings the cursor back to where it was. */
  lemma BackAgain(s: Screen)
    requires Ok(s) && At(s) > 0
    ensures Ok(Back(s)) && At(Back(s)) == At(s) - 1
    ensures Terminal.PutChar(Back(s), BLANK) == s.(cells := s.cells[At(s) - 1 := BLANK])
  {
  }
}
