/**
  The text terminal: an 80 by 25 window that scrolls. As long as characters are only written, it
  shows the last rows of an unbounded log.
 */
module Terminal {
  import opened Machine

  const WIDTH := 80
  const HEIGHT := 25
  const CELLS := 2000

  const BLANK: byte := 32
  const NEWLINE: byte := 10
  const NUL: byte := 0

  /** The characters on the screen, row by row, and the cursor. */
  datatype Screen = Screen(cells: seq<byte>, x: int, y: int)

  ghost predicate Ok(s: Screen) {
    |s.cells| == CELLS && 0 <= s.x < WIDTH && 0 <= s.y < HEIGHT
  }

  /** The number of the cell under the cursor. */
  function At(s: Screen): int {
    s.y * WIDTH + s.x
  }

  // ---------------------------------------------------------------- the operations

  /** Everything one row up, the last row blank. */
  function Scrolled(cells: seq<byte>): (r: seq<byte>)
    requires |cells| == CELLS
    ensures |r| == CELLS
  {
    cells[WIDTH..] + seq(WIDTH, _ => BLANK)
  }

  /** What happens after the cursor moved: wrapping at the right edge, then scrolling at the bottom. */
  function Settled(s: Screen): Screen
    requires |s.cells| == CELLS
  {
    var t := if s.x == WIDTH then s.(x := 0, y := s.y + 1) else s;
    if t.y == HEIGHT then Screen(Scrolled(t.cells), 0, HEIGHT - 1) else t
  }

  function PutChar(s: Screen, c: byte): Screen
    requires Ok(s)
  {
    if c == NEWLINE then Settled(s.(x := 0, y := s.y + 1))
    else if c == NUL then Settled(s)
    else Settled(s.(cells := s.cells[At(s) := c], x := s.x + 1))
  }

  lemma PutCharOk(s: Screen, c: byte)
    requires Ok(s)
    ensures Ok(PutChar(s, c))
  {
  }

  function Back(s: Screen): Screen {
    if s.x - 1 < 0 then s.(y := s.y - 1, x := WIDTH - (1 - s.x)) else s.(x := s.x - 1)
  }

  function Backspace(s: Screen): Screen
    requires Ok(s) && At(s) > 0
  {
    Back(PutChar(Back(s), BLANK))
  }

  function Write(s: Screen, text: seq<byte>): Screen
    requires Ok(s)
    decreases |text|
  {
    if text == [] then s
    else
      PutCharOk(s, text[0]);
      Write(PutChar(s, text[0]), text[1..])
  }

  const CLEARED := Screen(seq(CELLS, _ => BLANK), 0, 0)

  // ---------------------------------------------------------------- the log

  /** All output so far: finished rows, and the row being written. */
  datatype Log = Log(done: seq<seq<byte>>, cur: seq<byte>)

  function Append(log: Log, c: byte): Log {
    if c == NEWLINE then Log(log.done + [log.cur], [])
    else if c == NUL then log
    else if |log.cur| + 1 == WIDTH then Log(log.done + [log.cur + [c]], [])
    else Log(log.done, log.cur + [c])
  }

  function LogOf(log: Log, text: seq<byte>): Log
    decreases |text|
  {
    if text == [] then log else LogOf(Append(log, text[0]), text[1..])
  }

  ghost predicate LogOk(log: Log) {
    |log.cur| < WIDTH && forall i :: 0 <= i < |log.done| ==> |log.done[i]| <= WIDTH
  }

  /** Row `r` of the log, blank beyond its end. */
  function CharAt(log: Log, r: int, x: int): byte {
    var row := if 0 <= r < |log.done| then log.done[r] else if r == |log.done| then log.cur else [];
    if 0 <= x < |row| then row[x] else BLANK
  }

  /** The first row that is still on the screen. */
  function Top(log: Log): int {
    if |log.done| < HEIGHT then 0 else |log.done| - (HEIGHT - 1)
  }

  /** The window onto the log: its last rows, and the cursor at its end. */
  ghost predicate Shows(s: Screen, log: Log) {
    && |s.cells| == CELLS
    && s.x == |log.cur| && s.y == |log.done| - Top(log)
    && forall p :: 0 <= p < CELLS ==> s.cells[p] == CharAt(log, Top(log) + p / WIDTH, p % WIDTH)
  }

  // ---------------------------------------------------------------- refinement

  /** A finished row: the window moves down when it was at the bottom. */
  lemma {:induction false} RowDone(s: Screen, log: Log, cells: seq<byte>, row: seq<byte>)
    requires LogOk(log) && s.y == |log.done| - Top(log) && |cells| == CELLS && |row| <= WIDTH
    requires forall p :: 0 <= p < CELLS ==> cells[p] == CharAt(log.(cur := row), Top(log) + p / WIDTH, p % WIDTH)
    ensures Shows(Settled(Screen(cells, 0, s.y + 1)), Log(log.done + [row], []))
  {
    var log' := Log(log.done + [row], []);
    var t := Settled(Screen(cells, 0, s.y + 1));
    forall p | 0 <= p < CELLS ensures t.cells[p] == CharAt(log', Top(log') + p / WIDTH, p % WIDTH) {
      if Top(log') == Top(log) {
        assert t.cells == cells;
      } else if p < CELLS - WIDTH {
        assert (p + WIDTH) / WIDTH == p / WIDTH + 1 && (p + WIDTH) % WIDTH == p % WIDTH;
        assert t.cells[p] == cells[p + WIDTH];
      } else {
        assert p / WIDTH == HEIGHT - 1;
      }
    }
  }

  /** One character on the screen is one character in the log. */
  lemma {:induction false} PutCharShows(s: Screen, log: Log, c: byte)
    requires Ok(s) && LogOk(log) && Shows(s, log)
    ensures LogOk(Append(log, c)) && Shows(PutChar(s, c), Append(log, c))
  {
    if c == NEWLINE {
      RowDone(s, log, s.cells, log.cur);
    } else if c != NUL {
      var row, cells := log.cur + [c], s.cells[At(s) := c];
      forall p | 0 <= p < CELLS ensures cells[p] == CharAt(log.(cur := row), Top(log) + p / WIDTH, p % WIDTH) {
        assert p == p / WIDTH * WIDTH + p % WIDTH;
      }
      if |row| == WIDTH {
        RowDone(s, log, cells, row);
      }
    }
  }

  /**
    Whatever is written, the cursor stays on the screen and the screen shows the last rows of the
    log of everything written.
   */
  lemma {:induction false} WriteShows(s: Screen, log: Log, text: seq<byte>)
    requires Ok(s) && LogOk(log) && Shows(s, log)
    ensures Ok(Write(s, text)) && Shows(Write(s, text), LogOf(log, text))
    decreases |text|
  {
    if text != [] {
      PutCharOk(s, text[0]);
      PutCharShows(s, log, text[0]);
      WriteShows(PutChar(s, text[0]), Append(log, text[0]), text[1..]);
    }
  }

  lemma {:induction false} ClearedShows()
    ensures Ok(CLEARED) && LogOk(Log([], [])) && Shows(CLEARED, Log([], []))
  {
  }
}
