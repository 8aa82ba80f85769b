/**
  The keyboard ring under interrupts. The reader's `getchar` is split into its single memory
  accesses, and the interrupt handler, which runs to its end once it starts, may come between any
  two of them.
 */
module Keyboard {

  const RING := 128

  /** The reader's next access, with what it has loaded so far. */
  datatype Reader =
    | LoadStart                  // of the emptiness test
    | LoadEnd(a: int)            // and compare with `a`
    | LoadIndex                  // of the slot to read
    | LoadSlot(i: int)
    | LoadStartAgain(c: int)     // to advance it
    | StoreStart(s: int, c: int)

  /** The shared variables, the reader, and all characters ever accepted and returned. */
  datatype State = State(ring: seq<int>, start: int, end: int, reader: Reader, accepted: seq<int>, returned: seq<int>)

  function Next(i: int): int {
    (i + 1) % RING
  }

  predicate Full(s: State) {
    Next(s.end) == s.start
  }

  /** The interrupt: the character is dropped when the ring is full. */
  function Interrupt(s: State, c: int): State {
    if Full(s) || !(0 <= s.end < |s.ring|) then s
    else s.(ring := s.ring[s.end := c], end := Next(s.end), accepted := s.accepted + [c])
  }

  /** One access of the reader. */
  function Access(s: State): State {
    match s.reader
    case LoadStart => s.(reader := LoadEnd(s.start))
    case LoadEnd(a) => s.(reader := if a == s.end then LoadStart else LoadIndex)
    case LoadIndex => s.(reader := LoadSlot(s.start))
    case LoadSlot(i) => if 0 <= i < |s.ring| then s.(reader := LoadStartAgain(s.ring[i])) else s
    case LoadStartAgain(c) => s.(reader := StoreStart(s.start, c))
    case StoreStart(t, c) => s.(start := Next(t), returned := s.returned + [c], reader := LoadStart)
  }

  datatype Event = Key(c: int) | Reads

  function Step(s: State, e: Event): State {
    match e
    case Key(c) => Interrupt(s, c)
    case Reads => Access(s)
  }

  function Run(s: State, es: seq<Event>): State
    decreases |es|
  {
    if es == [] then s else Run(Step(s, es[0]), es[1..])
  }

  const INITIAL := State(seq(RING, _ => 0), 0, 0, LoadStart, [], [])

  /** How many characters wait in the ring. */
  function Pending(s: State): int {
    if s.start <= s.end then s.end - s.start else s.end - s.start + RING
  }

  /** The slot of the `k`-th waiting character. */
  function SlotOf(start: int, k: int): int {
    if start + k < RING then start + k else start + k - RING
  }

  /** The ring holds exactly the characters accepted and not yet returned, in order. */
  ghost predicate RingOk(s: State) {
    && |s.ring| == RING && 0 <= s.start < RING && 0 <= s.end < RING
    && |s.accepted| == |s.returned| + Pending(s)
    && s.returned <= s.accepted
    && forall k :: 0 <= k < Pending(s) ==> s.ring[SlotOf(s.start, k)] == s.accepted[|s.returned| + k]
  }

  /** What the reader has loaded is still true of memory, and the character it holds is the next one due. */
  ghost predicate ReaderOk(s: State) {
    match s.reader
    case LoadStart => true
    case LoadEnd(a) => a == s.start
    case LoadIndex => Pending(s) > 0
    case LoadSlot(i) => i == s.start && Pending(s) > 0
    case LoadStartAgain(c) => Pending(s) > 0 && 0 <= s.start < |s.ring| && s.ring[s.start] == c
    case StoreStart(t, c) => t == s.start && Pending(s) > 0 && 0 <= s.start < |s.ring| && s.ring[s.start] == c
  }

  ghost predicate Inv(s: State) {
    RingOk(s) && ReaderOk(s)
  }

  /**
    An interrupt at any moment: while fewer than 127 characters wait the key's character waits behind them,
    with 127 waiting it is dropped; the slot being read is never the one written.
   */
  lemma {:induction false} InterruptKeeps(s: State, c: int)
    requires Inv(s)
    ensures Inv(Interrupt(s, c))
    ensures Interrupt(s, c).accepted == if Pending(s) < RING - 1 then s.accepted + [c] else s.accepted
    ensures Interrupt(s, c).returned == s.returned && Interrupt(s, c).reader == s.reader
    ensures Interrupt(s, c).start == s.start
    ensures Pending(s) > 0 ==> Interrupt(s, c).ring[s.start] == s.ring[s.start]
  {
    var t := Interrupt(s, c);
    if !Full(s) {
      assert Pending(t) == Pending(s) + 1;
      assert s.end == SlotOf(s.start, Pending(s));
      forall k | 0 <= k < Pending(t) ensures t.ring[SlotOf(t.start, k)] == t.accepted[|t.returned| + k] {
        if k < Pending(s) {
          assert SlotOf(t.start, k) == SlotOf(s.start, k) != s.end;
        }
      }
      assert |t.accepted| == |s.accepted| + 1;
    }
  }

  lemma {:induction false} AccessKeeps(s: State)
    requires Inv(s)
    ensures Inv(Access(s))
  {
    var t := Access(s);
    if s.reader.StoreStart? {
      assert SlotOf(s.start, 0) == s.start;
      assert Pending(t) == Pending(s) - 1;
      assert t.returned == s.accepted[..|s.returned| + 1];
      forall k | 0 <= k < Pending(t) ensures t.ring[SlotOf(t.start, k)] == t.accepted[|t.returned| + k] {
        assert SlotOf(t.start, k) == SlotOf(s.start, k + 1);
        assert s.ring[SlotOf(s.start, k + 1)] == s.accepted[|s.returned| + (k + 1)];
      }
    }
  }

  /** The keys of a run, in order. */
  function Keys(es: seq<Event>): seq<int> {
    if es == [] then [] else (if es[0].Key? then [es[0].c] else []) + Keys(es[1..])
  }

  /** The keys of a run that come while fewer than 127 characters wait, in order. */
  function Heard(s: State, es: seq<Event>): seq<int>
    decreases |es|
  {
    if es == [] then []
    else
      (if es[0].Key? && Pending(s) < RING - 1 then [es[0].c] else []) + Heard(Step(s, es[0]), es[1..])
  }

  /**
    Over every interleaving of key interrupts with the reader's accesses, the characters accepted are just
    those of the keys that came while fewer than 127 waited, in order; the characters returned are a prefix
    of them, all others still wait in the ring, and at most 127 do.
   */
  lemma {:induction false} EveryInterleaving(s: State, es: seq<Event>)
    requires Inv(s)
    ensures var t := Run(s, es);
            && Inv(t) && t.returned <= t.accepted && |t.accepted| - |t.returned| == Pending(t) <= RING - 1
            && t.accepted == s.accepted + Heard(s, es) && s.returned <= t.returned
    decreases |es|
  {
    hide Inv, Pending;
    if es == [] {
      InvMeans(s);
    } else {
      StepMeans(s, es[0]);
      EveryInterleaving(Step(s, es[0]), es[1..]);
    }
  }

  lemma InvMeans(s: State)
    requires Inv(s)
    ensures s.returned <= s.accepted && |s.accepted| - |s.returned| == Pending(s) <= RING - 1
  {
  }

  /** One event: what it adds to the characters accepted. */
  lemma {:induction false} StepMeans(s: State, e: Event)
    requires Inv(s)
    ensures var t := Step(s, e);
            && Inv(t) && s.returned <= t.returned
            && t.accepted == s.accepted + (if e.Key? && Pending(s) < RING - 1 then [e.c] else [])
            && Pending(t) <= Pending(s) + (if e.Key? then 1 else 0)
  {
    hide RingOk, ReaderOk;
    match e
    case Key(c) =>
      InterruptKeeps(s, c);
      InvMeans(s);
      InvMeans(Interrupt(s, c));
    case Reads =>
      AccessKeeps(s);
      InvMeans(s);
      InvMeans(Access(s));
  }

  /** As long as the keys of a run and the characters waiting before it come to 127 at most, no key is lost. */
  lemma {:induction false} NothingLost(s: State, es: seq<Event>)
    requires Inv(s) && Pending(s) + |Keys(es)| <= RING - 1
    ensures Heard(s, es) == Keys(es)
    decreases |es|
  {
    hide Inv, Pending, Step;
    if es != [] {
      StepMeans(s, es[0]);
      NothingLost(Step(s, es[0]), es[1..]);
    }
  }

  lemma InitialInv()
    ensures Inv(INITIAL)
  {
  }

  /** Six uninterrupted accesses return the next character due whenever one waits. */
  lemma {:induction false} ReaderProgresses(s: State)
    requires Inv(s) && s.reader.LoadStart? && Pending(s) > 0
    ensures Run(s, [Reads, Reads, Reads, Reads, Reads, Reads]).returned == s.returned + [s.accepted[|s.returned|]]
  {
    var s1 := Access(s);
    var s2 := Access(s1);
    var s3 := Access(s2);
    var s4 := Access(s3);
    var s5 := Access(s4);
    var s6 := Access(s5);
    assert SlotOf(s.start, 0) == s.start;
    assert s6.returned == s.returned + [s.accepted[|s.returned|]];
    SixReads(s);
  }

  lemma {:induction false} SixReads(s: State)
    ensures Run(s, [Reads, Reads, Reads, Reads, Reads, Reads]) == Access(Access(Access(Access(Access(Access(s))))))
  {
    hide Access;
    OneRead(s, 5);
    OneRead(Access(s), 4);
    OneRead(Access(Access(s)), 3);
    OneRead(Access(Access(Access(s))), 2);
    OneRead(Access(Access(Access(Access(s)))), 1);
    OneRead(Access(Access(Access(Access(Access(s))))), 0);
    assert seq(6, _ => Reads) == [Reads, Reads, Reads, Reads, Reads, Reads];
  }

  lemma {:induction false} OneRead(s: State, n: nat)
    ensures Run(s, seq(n + 1, _ => Reads)) == Run(Access(s), seq(n, _ => Reads))
    ensures Run(s, seq(0, _ => Reads)) == s
  {
    assert seq(n + 1, _ => Reads)[1..] == seq(n, _ => Reads);
    assert seq(0, _ => Reads) == [];
  }
}
