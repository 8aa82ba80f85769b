/**
  The shell's line editor: a command buffer and the screen, both changed by every key. The cells in
  front of the cursor spell what the keys show, which is the buffer as long as every key shows
  something; keys that do not can even lead the cursor off the screen.
 */
module LineEditor {
  import opened Machine
  import opened Terminal
  import opened TerminalDriver

  const BACKSPACE: byte := 8
  const BUFFER := 256

  // ---------------------------------------------------------------- the text a line of keys means

  function KeyText(text: seq<byte>, c: byte): seq<byte> {
    if c == BACKSPACE then (if text == [] then text else text[..|text| - 1])
    else if |text| < BUFFER - 1 then text + [c]
    else text
  }

  /** The text left after a sequence of keys: backspace drops the last character, and 255 is the limit. */
  function Edited(keys: seq<byte>): seq<byte> {
    if keys == [] then [] else KeyText(Edited(keys[..|keys| - 1]), keys[|keys| - 1])
  }

  lemma {:induction false} EditedBounded(keys: seq<byte>)
    ensures |Edited(keys)| < BUFFER
    decreases |keys|
  {
    if keys != [] { EditedBounded(keys[..|keys| - 1]); }
  }

  /** Keys without a backspace are stored as they come, the first 255 of them. */
  lemma {:induction false} PlainKeys(keys: seq<byte>)
    requires forall i :: 0 <= i < |keys| ==> keys[i] != BACKSPACE
    ensures Edited(keys) == if |keys| < BUFFER then keys else keys[..BUFFER - 1]
    decreases |keys|
  {
    if keys != [] {
      var front := keys[..|keys| - 1];
      PlainKeys(front);
      assert keys == front + [keys[|keys| - 1]];
      assert |keys| >= BUFFER ==> front[..BUFFER - 1] == keys[..BUFFER - 1];
    }
  }

  /** A backspace undoes the key before it, unless that one found the buffer full. */
  lemma {:induction false} BackspaceUndoes(keys: seq<byte>, c: byte)
    requires c != BACKSPACE
    ensures Edited(keys + [c, BACKSPACE]) ==
            var text := Edited(keys); if |text| < BUFFER - 1 then text else text[..|text| - 1]
  {
    var one, two := keys + [c], keys + [c, BACKSPACE];
    assert one[..|one| - 1] == keys && two[..|two| - 1] == one;
    EditedBounded(keys);
  }

  // ---------------------------------------------------------------- the screen

  /** The cells just before the cursor spell `text`. */
  ghost predicate Spells(s: Screen, text: seq<byte>) {
    Ok(s) && |text| <= At(s) && s.cells[At(s) - |text|..At(s)] == text
  }

  /** `Astray` is a backspace in the first cell: its blank goes to memory before the screen. */
  datatype Edit = Astray | Showing(screen: Screen)

  /** What a key does to the screen while `n` characters are in the buffer. */
  function KeyScreen(s: Screen, n: nat, c: byte): Edit
    requires Ok(s)
  {
    if c == BACKSPACE then
      if n == 0 then Showing(s) else if At(s) == 0 then Astray else Showing(Terminal.Backspace(s))
    else if n < BUFFER - 1 then Showing(Terminal.PutChar(s, c))
    else Showing(s)
  }

  /** Typing a character: it lands before the cursor, and a scroll carries the whole text along. */
  lemma {:induction false} TypedSpells(s: Screen, text: seq<byte>, c: byte)
    requires Spells(s, text) && |text| < BUFFER - 1 && c != NEWLINE && c != NUL
    ensures Spells(Terminal.PutChar(s, c), text + [c])
  {
    var t := Terminal.PutChar(s, c);
    var cells, p := s.cells[At(s) := c], At(s) + 1;
    assert cells[p - |text| - 1..p] == text + [c] by {
      assert cells[p - |text| - 1..p - 1] == text;
    }
    if p == CELLS {
      assert t == Screen(Scrolled(cells), 0, HEIGHT - 1);
      assert t.cells[At(t) - |text| - 1..At(t)] == cells[p - |text| - 1..p];
    } else {
      assert At(t) == p && t.cells == cells;
    }
  }

  lemma {:induction false} Erased(s: Screen)
    requires Ok(s) && At(s) > 0
    ensures var t := Terminal.Backspace(s);
            Ok(t) && At(t) == At(s) - 1 && t.cells == s.cells[At(s) - 1 := BLANK]
  {
    BackAgain(s);
  }

  /** Erasing a character: the cursor steps back over it. */
  lemma {:induction false} ErasedSpells(s: Screen, text: seq<byte>)
    requires Spells(s, text) && text != []
    ensures At(s) > 0 && Spells(Terminal.Backspace(s), text[..|text| - 1])
  {
    hide Terminal.Backspace;
    Erased(s);
    var p := At(s) - |text|;
    var shorter := Terminal.Backspace(s).cells[p..At(s) - 1];
    forall k | 0 <= k < |text| - 1 ensures shorter[k] == text[k] {
      assert shorter[k] == s.cells[p + k] == s.cells[p..At(s)][k];
    }
    assert shorter == text[..|text| - 1];
  }

  /** Every key but Enter and those without a character keeps screen and text in step. */
  lemma {:induction false} KeySpells(s: Screen, text: seq<byte>, c: byte)
    requires Spells(s, text) && |text| < BUFFER && c != NEWLINE && c != NUL
    ensures var e := KeyScreen(s, |text|, c);
            e.Showing? && Spells(e.screen, KeyText(text, c))
  {
    if c == BACKSPACE {
      if text != [] { ErasedSpells(s, text); }
    } else if |text| < BUFFER - 1 {
      TypedSpells(s, text, c);
    }
  }

  /** No cell holds the character code 0; nothing ever writes one. */
  ghost predicate NoNul(s: Screen) {
    forall p :: 0 <= p < |s.cells| ==> s.cells[p] != NUL
  }

  lemma {:induction false} KeyKeepsNoNul(s: Screen, n: nat, c: byte)
    requires Ok(s) && NoNul(s)
    ensures KeyScreen(s, n, c).Showing? ==> NoNul(KeyScreen(s, n, c).screen)
  {
    if c == BACKSPACE && At(s) > 0 { BackAgain(s); }
  }

  /**
    The exact condition for one key: a key without a character is stored but shows nothing, so
    screen and buffer part company exactly when such a key is accepted.
   */
  lemma {:induction false} KeySpellsExactly(s: Screen, text: seq<byte>, c: byte)
    requires Spells(s, text) && |text| < BUFFER && c != NEWLINE && NoNul(s)
    ensures var e := KeyScreen(s, |text|, c);
            e.Showing? && (Spells(e.screen, KeyText(text, c)) <==> c != NUL || |text| == BUFFER - 1)
  {
    if c != NUL {
      KeySpells(s, text, c);
    } else if |text| < BUFFER - 1 {
      NulKey(s);
      NotSpelled(s, text + [NUL], |text|);
    }
  }

  lemma NulKey(s: Screen)
    requires Ok(s)
    ensures Terminal.PutChar(s, NUL) == s
  {
  }

  /** A screen without code 0 never spells a text that has one. */
  lemma {:induction false} NotSpelled(s: Screen, text: seq<byte>, i: nat)
    requires Ok(s) && NoNul(s) && i < |text| && text[i] == NUL
    ensures !Spells(s, text)
  {
    if |text| <= At(s) {
      assert s.cells[At(s) - |text|..At(s)][i] == s.cells[At(s) - |text| + i];
    }
  }

  // ---------------------------------------------------------------- whole lines

  lemma {:induction false} KeyScreenOk(s: Screen, n: nat, c: byte)
    requires Ok(s)
    ensures KeyScreen(s, n, c).Showing? ==> Ok(KeyScreen(s, n, c).screen)
  {
    if c == BACKSPACE && At(s) > 0 { BackAgain(s); }
  }

  /** The screen after a sequence of keys; once astray, always astray. */
  function EditedScreen(s: Screen, keys: seq<byte>): (r: Edit)
    requires Ok(s)
    ensures r.Showing? ==> Ok(r.screen)
    decreases |keys|
  {
    if keys == [] then Showing(s)
    else
      var e := EditedScreen(s, keys[..|keys| - 1]);
      if e.Astray? then Astray
      else
        KeyScreenOk(e.screen, |Edited(keys[..|keys| - 1])|, keys[|keys| - 1]);
        KeyScreen(e.screen, |Edited(keys[..|keys| - 1])|, keys[|keys| - 1])
  }

  /** The text the screen shows for a line: keys without a character leave no trace, but erasing one erases a cell. */
  function Shown(keys: seq<byte>): seq<byte> {
    if keys == [] then []
    else
      var head, c := keys[..|keys| - 1], keys[|keys| - 1];
      ShownKey(Shown(head), |Edited(head)|, c)
  }

  function ShownKey(shown: seq<byte>, n: nat, c: byte): seq<byte> {
    if c == BACKSPACE then (if n == 0 || shown == [] then shown else shown[..|shown| - 1])
    else if n < BUFFER - 1 && c != NUL then shown + [c]
    else shown
  }

  /** The screen shows at most what the buffer holds, and exactly that when the lengths agree. */
  lemma {:induction false} ShownAtMost(keys: seq<byte>)
    ensures |Shown(keys)| <= |Edited(keys)|
    ensures |Shown(keys)| == |Edited(keys)| ==> Shown(keys) == Edited(keys)
    decreases |keys|
  {
    if keys != [] { ShownAtMost(keys[..|keys| - 1]); }
  }

  /** Without code 0 the screen shows the whole text. */
  lemma {:induction false} ShownIsEdited(keys: seq<byte>)
    requires NUL !in keys
    ensures Shown(keys) == Edited(keys)
    decreases |keys|
  {
    if keys != [] {
      var head := keys[..|keys| - 1];
      assert forall k :: k in head ==> k in keys;
      ShownIsEdited(head);
    }
  }

  /**
    After any keys at all, from any screen, the cells before the cursor spell what the keys show,
    unless a backspace has met the first cell.
   */
  lemma {:induction false} ShownSpelled(s: Screen, keys: seq<byte>)
    requires Ok(s) && NEWLINE !in keys
    ensures EditedScreen(s, keys).Showing? ==> Spells(EditedScreen(s, keys).screen, Shown(keys))
    decreases |keys|
  {
    hide Edited, KeyScreen, ShownKey, Spells;
    if keys == [] {
      SpellsNothing(s);
    } else if EditedScreen(s, keys).Showing? {
      var head, c := keys[..|keys| - 1], keys[|keys| - 1];
      assert forall k :: k in head ==> k in keys;
      ShownSpelled(s, head);
      EditedBounded(head);
      ShownAtMost(head);
      KeyShows(EditedScreen(s, head).screen, Shown(head), |Edited(head)|, c);
    }
  }

  lemma SpellsNothing(s: Screen)
    requires Ok(s)
    ensures Spells(s, [])
  {
  }

  /** One key, whatever it is. */
  lemma {:induction false} KeyShows(s: Screen, shown: seq<byte>, n: nat, c: byte)
    requires Ok(s) && Spells(s, shown) && |shown| <= n < BUFFER && c != NEWLINE
    ensures KeyScreen(s, n, c).Showing? ==> Spells(KeyScreen(s, n, c).screen, ShownKey(shown, n, c))
  {
    hide Terminal.PutChar, Terminal.Backspace, Spells;
    NulKey(s);
    if c == BACKSPACE && n > 0 && At(s) > 0 {
      if shown == [] {
        Erased(s);
        SpellsNothing(Terminal.Backspace(s));
      } else {
        ErasedSpells(s, shown);
      }
    } else if c != BACKSPACE && c != NUL && n < BUFFER - 1 {
      TypedSpells(s, shown, c);
    }
  }

  /**
    After any sequence of keys with a character, from any screen, no backspace meets the first
    cell, and the cells before the cursor spell the text the keys mean.
   */
  lemma {:induction false} EditedSpells(s: Screen, keys: seq<byte>)
    requires Ok(s) && NEWLINE !in keys && NUL !in keys
    ensures EditedScreen(s, keys).Showing? && Spells(EditedScreen(s, keys).screen, Edited(keys))
  {
    NoBlanks(keys);
    FewBlanksStay(s, keys);
    ShownSpelled(s, keys);
    ShownIsEdited(keys);
  }

  lemma {:induction false} NoBlanks(keys: seq<byte>)
    requires NUL !in keys
    ensures Blanks(keys) == 0
    decreases |keys|
  {
    if keys != [] {
      assert forall k :: k in keys[..|keys| - 1] ==> k in keys;
      NoBlanks(keys[..|keys| - 1]);
    }
  }

  lemma {:induction false} EditedNoNul(s: Screen, keys: seq<byte>)
    requires Ok(s) && NoNul(s)
    ensures EditedScreen(s, keys).Showing? ==> NoNul(EditedScreen(s, keys).screen)
    decreases |keys|
  {
    if keys != [] {
      var head := keys[..|keys| - 1];
      EditedNoNul(s, head);
      var e := EditedScreen(s, head);
      if e.Showing? { KeyKeepsNoNul(e.screen, |Edited(head)|, keys[|keys| - 1]); }
    }
  }

  /** A screen that was cleared and written to holds no code 0. */
  lemma {:induction false} WrittenNoNul(s: Screen, text: seq<byte>)
    requires Ok(s) && NoNul(s)
    ensures Ok(Write(s, text)) && NoNul(Write(s, text))
    ensures NoNul(CLEARED)
    decreases |text|
  {
    if text != [] {
      PutCharOk(s, text[0]);
      WrittenNoNul(Terminal.PutChar(s, text[0]), text[1..]);
    }
  }

  /** While the buffer holds a code 0, the screen does not spell it. */
  lemma {:induction false} StoredNulNotSpelled(s: Screen, keys: seq<byte>)
    requires Ok(s) && NoNul(s) && NUL in Edited(keys) && EditedScreen(s, keys).Showing?
    ensures !Spells(EditedScreen(s, keys).screen, Edited(keys))
  {
    EditedNoNul(s, keys);
    var i :| 0 <= i < |Edited(keys)| && Edited(keys)[i] == NUL;
    NotSpelled(EditedScreen(s, keys).screen, Edited(keys), i);
  }

  // ---------------------------------------------------------------- exactly when a line goes astray

  /** The cursor's cell and the length of the buffer; nothing else decides where a key leads. */
  datatype Cursor = Lost | Here(at: int, n: int)

  function Move(p: Cursor, c: byte): Cursor {
    if p.Lost? then Lost
    else if c == BACKSPACE then (if p.n <= 0 then p else if p.at == 0 then Lost else Here(p.at - 1, p.n - 1))
    else if p.n >= BUFFER - 1 then p
    else if c == NUL then Here(p.at, p.n + 1)
    else Here(if p.at + 1 == CELLS then CELLS - WIDTH else p.at + 1, p.n + 1)
  }

  function Moved(at: int, keys: seq<byte>): Cursor {
    if keys == [] then Here(at, 0) else Move(Moved(at, keys[..|keys| - 1]), keys[|keys| - 1])
  }

  /** The exact condition: a line goes astray if and only if counting the keys does. */
  lemma {:induction false} AstrayExactly(s: Screen, keys: seq<byte>)
    requires Ok(s) && NEWLINE !in keys
    ensures var e, p := EditedScreen(s, keys), Moved(At(s), keys);
            && (e.Astray? <==> p.Lost?)
            && (e.Showing? ==> p == Here(At(e.screen), |Edited(keys)|))
    decreases |keys|
  {
    hide Edited, KeyScreen, Move, KeyText;
    if keys == [] {
      EditedNothing(s, keys);
    } else {
      var head, c := keys[..|keys| - 1], keys[|keys| - 1];
      assert forall k :: k in head ==> k in keys;
      AstrayExactly(s, head);
      EditedBounded(head);
      var e := EditedScreen(s, head);
      OneMoreText(keys);
      if e.Showing? { KeyMoves(e.screen, Edited(head), c); } else { LostStays(c); }
    }
  }

  lemma OneMoreText(keys: seq<byte>)
    requires keys != []
    ensures Edited(keys) == KeyText(Edited(keys[..|keys| - 1]), keys[|keys| - 1])
  {
  }

  lemma LostStays(c: byte)
    ensures Move(Lost, c) == Lost
  {
  }

  lemma {:induction false} KeyMoves(s: Screen, text: seq<byte>, c: byte)
    requires Ok(s) && |text| < BUFFER && c != NEWLINE
    ensures var e, p := KeyScreen(s, |text|, c), Move(Here(At(s), |text|), c);
            && (e.Astray? <==> p.Lost?)
            && (e.Showing? ==> p == Here(At(e.screen), |KeyText(text, c)|))
  {
    hide Terminal.PutChar, Terminal.Backspace;
    if At(s) > 0 { Erased(s); }
    NulKey(s);
    if c != NUL { Advances(s, c); }
  }

  lemma {:induction false} Advances(s: Screen, c: byte)
    requires Ok(s) && c != NUL && c != NEWLINE
    ensures At(Terminal.PutChar(s, c)) == if At(s) + 1 == CELLS then CELLS - WIDTH else At(s) + 1
  {
  }

  /** How many of the keys have no character. */
  function Blanks(keys: seq<byte>): nat {
    if keys == [] then 0 else Blanks(keys[..|keys| - 1]) + if keys[|keys| - 1] == NUL then 1 else 0
  }

  /** A line's worth of cells from the last row up is more than the buffer can take back. */
  const SLACK := CELLS - WIDTH - (BUFFER - 1)

  /** A condition to check beforehand: few keys without a character, and no more than cells before the cursor. */
  lemma {:induction false} FewBlanksStay(s: Screen, keys: seq<byte>)
    requires Ok(s) && NEWLINE !in keys && Blanks(keys) <= At(s) && Blanks(keys) <= SLACK
    ensures EditedScreen(s, keys).Showing?
  {
    AstrayExactly(s, keys);
    BlanksBound(At(s), if At(s) < SLACK then At(s) else SLACK, keys);
  }

  lemma {:induction false} BlanksBound(at: int, slack: int, keys: seq<byte>)
    requires 0 <= slack <= at < CELLS && slack <= SLACK && Blanks(keys) <= slack
    ensures var p := Moved(at, keys);
            p.Here? && 0 <= p.n < BUFFER && 0 <= p.at < CELLS && p.n + slack <= p.at + Blanks(keys)
    decreases |keys|
  {
    if keys != [] { BlanksBound(at, slack, keys[..|keys| - 1]); }
  }

  /** Pairs of a key without a character and a backspace: each moves the cursor back by one cell. */
  function BackPairs(k: nat): seq<byte> {
    if k == 0 then [] else BackPairs(k - 1) + [NUL, BACKSPACE]
  }

  lemma {:induction false} PairsLead(at: nat, k: nat)
    requires k <= at + 1
    ensures Moved(at, BackPairs(k)) == if k == at + 1 then Lost else Here(at - k, 0)
    ensures NEWLINE !in BackPairs(k)
    decreases k
  {
    if k > 0 {
      PairsLead(at, k - 1);
      var keys := BackPairs(k);
      var half := BackPairs(k - 1) + [NUL];
      assert keys[..|keys| - 1] == half && half[..|half| - 1] == BackPairs(k - 1);
      assert Moved(at, half) == Move(Moved(at, BackPairs(k - 1)), NUL);
    }
  }

  /** From every screen there are keys that lead astray: one more pair than there are cells before the cursor. */
  lemma {:induction false} LineCanStray(s: Screen)
    requires Ok(s)
    ensures NEWLINE !in BackPairs(At(s) + 1) && EditedScreen(s, BackPairs(At(s) + 1)).Astray?
  {
    PairsLead(At(s), At(s) + 1);
    AstrayExactly(s, BackPairs(At(s) + 1));
  }

  // ---------------------------------------------------------------- the loop

  lemma EditedNothing(s: Screen, keys: seq<byte>)
    requires Ok(s) && keys == []
    ensures Edited(keys) == [] && EditedScreen(s, keys) == Showing(s)
  {
  }

  /** One key more. */
  lemma {:induction false} OneMoreKey(s: Screen, keys: seq<byte>, n: nat)
    requires Ok(s) && n < |keys| && EditedScreen(s, keys[..n]).Showing?
    ensures var text, now := Edited(keys[..n]), EditedScreen(s, keys[..n]).screen;
            && Edited(keys[..n + 1]) == KeyText(text, keys[n])
            && EditedScreen(s, keys[..n + 1]) == KeyScreen(now, |text|, keys[n])
            && |text| < BUFFER && |Edited(keys[..n + 1])| < BUFFER
  {
    hide KeyText, KeyScreen;
    assert keys[..n + 1][..n] == keys[..n];
    EditedBounded(keys[..n]);
    EditedBounded(keys[..n + 1]);
  }

  /** How reading a line ends: out of keys, with Enter, or with a write before the screen. */
  datatype Ending = Waiting | Entered | Strayed

  class Shell {
    const tty: Tty
    const commandBuf: array<byte>
    var bufLocation: int

    ghost predicate Valid()
      reads this, tty, tty.buffer, commandBuf
    {
      tty.Valid() && commandBuf.Length == BUFFER
    }

    constructor (tty: Tty)
      requires tty.Valid()
      ensures Valid() && this.tty == tty && fresh(commandBuf)
    {
      this.tty, bufLocation := tty, 0;
      commandBuf := new byte[BUFFER](_ => 0);
    }

    /**
      Reads keys until Enter, whatever keys they are. The buffer holds the text the keys mean and
      the screen is the one they lead to; on Enter the text is terminated and the cursor moves to a
      new line. The line ends astray on the first backspace that meets the first cell.
     */
    method WaitForCommand(keys: seq<byte>) returns (used: nat, ending: Ending)
      requires Valid()
      modifies this, commandBuf, tty`x, tty`y, tty.buffer
      ensures used <= |keys| && (!ending.Strayed? ==> Valid())
      ensures ending.Waiting? ==>
                && used == |keys| && NEWLINE !in keys
                && bufLocation == |Edited(keys)| < BUFFER && commandBuf[..bufLocation] == Edited(keys)
                && EditedScreen(old(tty.View()), keys) == Showing(tty.View()) && Spells(tty.View(), Shown(keys))
      ensures ending.Entered? ==>
                && 0 < used && keys[used - 1] == NEWLINE && NEWLINE !in keys[..used - 1]
                && var text, e := Edited(keys[..used - 1]), EditedScreen(old(tty.View()), keys[..used - 1]);
                && |text| < BUFFER && commandBuf[..|text|] == text && commandBuf[|text|] == NUL
                && e.Showing? && tty.View() == Terminal.PutChar(e.screen, NEWLINE)
      ensures ending.Strayed? ==>
                && 0 < used && NEWLINE !in keys[..used]
                && EditedScreen(old(tty.View()), keys[..used - 1]).Showing?
                && EditedScreen(old(tty.View()), keys[..used]).Astray?
    {
      hide Terminal.PutChar, Terminal.Backspace, Edited, EditedScreen, Spells, Shown;
      EditedNothing(tty.View(), keys[..0]);
      ghost var s0 := tty.View();
      bufLocation := 0;
      ClearBuffer();
      used := 0;
      while used < |keys|
        invariant used <= |keys| && Valid() && NEWLINE !in keys[..used]
        invariant bufLocation == |Edited(keys[..used])| < BUFFER
        invariant commandBuf[..bufLocation] == Edited(keys[..used])
        invariant EditedScreen(s0, keys[..used]) == Showing(tty.View())
      {
        var c := keys[used];
        if c == NEWLINE {
          commandBuf[bufLocation] := NUL;
          bufLocation := 0;
          tty.PutChar(NEWLINE);
          return used + 1, Entered;
        }
        OneMoreKey(s0, keys, used);
        if c == BACKSPACE {
          if bufLocation > 0 {
            bufLocation := bufLocation - 1;
            var strayed := tty.Backspace();
            if strayed {
              return used + 1, Strayed;
            }
          }
        } else if bufLocation < BUFFER - 1 {
          commandBuf[bufLocation] := c;
          bufLocation := bufLocation + 1;
          tty.PutChar(c);
        }
        used := used + 1;
      }
      assert keys[..used] == keys;
      ShownSpelled(s0, keys);
      ending := Waiting;
    }

    method ClearBuffer()
      modifies commandBuf
      ensures forall k :: 0 <= k < commandBuf.Length ==> commandBuf[k] == 0
    {
      forall k | 0 <= k < commandBuf.Length {
        commandBuf[k] := 0;
      }
    }
  }
}
