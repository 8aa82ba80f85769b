/**
  Formatted output. The reference says what a format means one character or directive at a time;
  the routine copies whole literal stretches, converts numbers backwards through a small buffer,
  and keeps the running length within the range of an int.
 */
module Printf {
  import opened Machine

  type Bytes = seq<byte>

  const PERCENT: byte := 37
  const MINUS: byte := 45
  const INT_MAX := 0x7FFF_FFFF

  // ---------------------------------------------------------------- numbers

  /** The character of a digit below sixteen. */
  function DigitChar(d: int): byte
    requires 0 <= d < 16
  {
    if d < 10 then 48 + d else 55 + d
  }

  /** The digits of a number, most significant first; zero has one digit. */
  function Digits(n: nat, radix: int): (r: Bytes)
    requires 2 <= radix <= 16
    ensures |r| >= 1
    decreases n
  {
    if n < radix then [DigitChar(n)] else Digits(n / radix, radix) + [DigitChar(n % radix)]
  }

  function DigitValue(c: byte): int {
    if c < 58 then c - 48 else c - 55
  }

  /** The number a string of digits denotes. */
  function Value(s: Bytes, radix: int): int {
    if s == [] then 0 else Value(s[..|s| - 1], radix) * radix + DigitValue(s[|s| - 1])
  }

  lemma {:induction false} DigitsDecode(n: nat, radix: int)
    requires 2 <= radix <= 16
    ensures Value(Digits(n, radix), radix) == n
    decreases n
  {
    hide Value;
    var s := Digits(n, radix);
    if n >= radix {
      QuotientBelow(n, radix);
      DigitsDecode(n / radix, radix);
      ValueSplits(Digits(n / radix, radix), n % radix, radix);
      DivMod(n, radix);
    } else {
      ValueSplits([], n, radix);
      ValueOfNothing(radix);
      assert s == [] + [DigitChar(n)];
    }
  }

  /** One of the digits 0 to 9 or A to F that stands for a number below the radix. */
  predicate IsDigit(c: byte, radix: int) {
    (48 <= c <= 57 || 65 <= c <= 70) && DigitValue(c) < radix
  }

  /** A number as one writes it: digits, and no zero in front of others. */
  predicate IsNumeral(s: Bytes, radix: int) {
    s != [] && (|s| > 1 ==> s[0] != 48) && forall k :: 0 <= k < |s| ==> IsDigit(s[k], radix)
  }

  /** The digits of a number are a numeral, with nothing in front that is not needed. */
  lemma {:induction false} DigitsNumeral(n: nat, radix: int)
    requires 2 <= radix <= 16
    ensures IsNumeral(Digits(n, radix), radix) && (Digits(n, radix)[0] == 48 <==> n == 0)
    decreases n
  {
    QuotientZero(n, radix);
    if n >= radix {
      DigitsNumeral(n / radix, radix);
      Remainder(n, radix);
      assert IsDigit(DigitChar(n % radix), radix);
    }
  }

  lemma Remainder(n: nat, radix: int)
    requires 2 <= radix
    ensures 0 <= n % radix < radix
  {
  }

  /** The value of a numeral tells its last digit and the number the others denote. */
  lemma {:induction false} ValueParts(s: Bytes, radix: int)
    requires 2 <= radix <= 16 && IsNumeral(s, radix)
    ensures var h := s[..|s| - 1];
            && Value(s, radix) == Value(h, radix) * radix + DigitValue(s[|s| - 1])
            && (h != [] ==> IsNumeral(h, radix) && Value(h, radix) >= 1) && (h == [] ==> Value(h, radix) == 0)
    decreases |s|
  {
    var h := s[..|s| - 1];
    assert IsDigit(s[|s| - 1], radix);
    if h != [] {
      assert forall k :: 0 <= k < |h| ==> IsDigit(h[k], radix);
      assert IsDigit(h[|h| - 1], radix) && IsDigit(s[0], radix);
      ValueParts(h, radix);
      var g := Value(h[..|h| - 1], radix);
      if |h| > 1 { Times(1, g, radix); } else { assert h == [s[0]] && g * radix == 0; }
    }
  }

  /** There is one numeral for a number. */
  lemma {:induction false} OneNumeral(s: Bytes, t: Bytes, radix: int)
    requires 2 <= radix <= 16 && IsNumeral(s, radix) && IsNumeral(t, radix) && Value(s, radix) == Value(t, radix)
    ensures s == t
    decreases |s|
  {
    hide Value;
    ValueParts(s, radix);
    ValueParts(t, radix);
    var g, h, c, d := s[..|s| - 1], t[..|t| - 1], s[|s| - 1], t[|t| - 1];
    assert IsDigit(c, radix) && IsDigit(d, radix);
    SameParts(Value(g, radix), DigitValue(c), Value(h, radix), DigitValue(d), radix);
    assert s == g + [c] && t == h + [d];
    if g != [] && h != [] { OneNumeral(g, h, radix); }
  }

  lemma {:induction false} SameParts(q: int, r: int, q': int, r': int, radix: int)
    requires 0 <= r < radix && 0 <= r' < radix && q * radix + r == q' * radix + r'
    ensures q == q' && r == r'
  {
    if q < q' { Times(q + 1, q', radix); }
    if q' < q { Times(q' + 1, q, radix); }
  }

  lemma ValueOfNothing(radix: int)
    ensures Value([], radix) == 0
  {
  }

  lemma {:induction false} ValueSplits(s: Bytes, d: int, radix: int)
    requires 0 <= d < 16
    ensures Value(s + [DigitChar(d)], radix) == Value(s, radix) * radix + d
  {
    var t := s + [DigitChar(d)];
    assert t[..|t| - 1] == s;
  }

  lemma DivMod(n: nat, radix: int)
    requires 2 <= radix
    ensures n == n / radix * radix + n % radix
  {
  }

  /** Dividing by two or more makes every positive number smaller. */
  lemma {:induction false} QuotientBelow(n: nat, radix: int)
    requires 2 <= radix <= n
    ensures 1 <= n / radix < n
  {
    var q := n / radix;
    DivMod(n, radix);
    if q <= 0 { Times(q, 0, radix); }
    Times(2, radix, q);
  }

  lemma Times(a: int, b: int, c: int)
    requires a <= b
    ensures 0 <= c ==> a * c <= b * c
  {
  }

  /** Ten decimal digits are enough for 32 bits, and so for sixteen hexadecimal ones. */
  lemma {:induction false} DigitsFit(n: nat, radix: int, k: nat)
    requires 10 <= radix <= 16 && n < Power10(k + 1)
    ensures |Digits(n, radix)| <= k + 1
    decreases k
  {
    assert Power10(k + 1) == 10 * Power10(k) && Power10(0) == 1;
    if n >= radix && k > 0 {
      SmallerQuotient(n, radix, Power10(k));
      DigitsFit(n / radix, radix, k - 1);
    }
  }

  function Power10(k: nat): nat {
    if k == 0 then 1 else 10 * Power10(k - 1)
  }

  lemma {:induction false} SmallerQuotient(n: nat, radix: int, p: nat)
    requires 10 <= radix && n < 10 * p
    ensures n / radix < p
  {
    var q := n / radix;
    DivMod(n, radix);
    Times(10, radix, q);
  }

  /** What a number prints as. */
  function Shown(number: int, radix: int, signed: bool): Bytes
    requires 2 <= radix <= 16
  {
    if signed && number < 0 then [MINUS] + Digits(-number, radix) else Digits(number % WORD, radix)
  }

  function Reversed(s: Bytes): Bytes {
    if s == [] then [] else Reversed(s[1..]) + [s[0]]
  }

  /** Fills the buffer with the digits, least significant first. */
  method FillDigits(buf: array<byte>, number: nat, radix: int) returns (i: nat)
    requires buf.Length == 16 && number < WORD && (radix == 10 || radix == 16)
    modifies buf
    ensures i == |Digits(number, radix)| <= 10 && Reversed(buf[..i]) == Digits(number, radix)
  {
    hide DigitChar;
    TenBillion();
    DigitsFit(number, radix, 9);
    i := 0;
    var num := number;
    while true
      invariant 0 <= num && i + |Digits(num, radix)| == |Digits(number, radix)| <= 10
      invariant Digits(num, radix) + Reversed(buf[..i]) == Digits(number, radix)
      decreases num
    {
      ghost var before := buf[..i];
      var d := DigitChar(num % radix);
      buf[i] := d;
      ReversedPush(before, d);
      assert buf[..i + 1] == before + [d];
      DigitsStep(num, radix, Reversed(before));
      i := i + 1;
      num := num / radix;
      if num == 0 {
        ReversedLength(buf[..i]);
        return;
      }
    }
  }

  /** Moving the last digit of a number to the front of what follows it. */
  lemma {:induction false} DigitsStep(n: nat, radix: int, rest: Bytes)
    requires 2 <= radix <= 16
    ensures var d := [DigitChar(n % radix)];
            if n / radix == 0 then Digits(n, radix) + rest == d + rest
            else |Digits(n / radix, radix)| == |Digits(n, radix)| - 1
                 && Digits(n, radix) + rest == Digits(n / radix, radix) + (d + rest)
  {
    QuotientZero(n, radix);
    if n >= radix {
      var d := [DigitChar(n % radix)];
      assert Digits(n / radix, radix) + d + rest == Digits(n / radix, radix) + (d + rest);
    }
  }

  lemma {:induction false} QuotientZero(n: nat, radix: int)
    requires 2 <= radix
    ensures n / radix == 0 <==> n < radix
    ensures n < radix ==> n % radix == n
    ensures n >= radix ==> n / radix < n
  {
    if n >= radix { QuotientBelow(n, radix); } else { SmallDiv(n, radix); }
  }

  lemma SmallDiv(n: nat, radix: int)
    requires n < radix
    ensures n / radix == 0 && n % radix == n
  {
  }

  /** At most eleven of the sixteen bytes of the buffer are ever used. */
  method PrintInt(number: int, radix: int, signed: bool) returns (out: Bytes, len: nat)
    requires -INT_MAX - 1 <= number <= INT_MAX && (signed ==> number != -INT_MAX - 1) && (radix == 10 || radix == 16)
    ensures out == Shown(number, radix, signed) && len == |out| <= 11
  {
    hide Digits, Reversed, DigitChar;
    var buf := new byte[16];
    var isNegative := signed && number < 0;
    var i := FillDigits(buf, if isNegative then -number else number % WORD, radix);
    if isNegative {
      ghost var before := buf[..i];
      buf[i] := MINUS;
      ReversedPush(before, MINUS);
      assert buf[..i + 1] == before + [MINUS];
      i := i + 1;
    }
    len := i;
    out := Emit(buf, len);
    ReversedLength(buf[..len]);
  }

  /** Prints the first `len` bytes of the buffer, last one first. */
  method Emit(buf: array<byte>, len: nat) returns (out: Bytes)
    requires len <= buf.Length
    ensures out == Reversed(buf[..len])
  {
    hide Reversed;
    out := [];
    var i := len;
    while i > 0
      invariant 0 <= i <= len && out + Reversed(buf[..i]) == Reversed(buf[..len])
    {
      ReversedPush(buf[..i - 1], buf[i - 1]);
      assert buf[..i] == buf[..i - 1] + [buf[i - 1]];
      i := i - 1;
      out := out + [buf[i]];
    }
    ReversedNothing(buf[..0]);
  }

  lemma ReversedNothing(s: Bytes)
    requires s == []
    ensures Reversed(s) == []
  {
  }

  lemma {:induction false} ReversedPush(s: Bytes, c: byte)
    ensures Reversed(s + [c]) == [c] + Reversed(s)
    decreases |s|
  {
    if s != [] {
      assert (s + [c])[1..] == s[1..] + [c];
      ReversedPush(s[1..], c);
    }
  }

  lemma {:induction false} ReversedLength(s: Bytes)
    ensures |Reversed(s)| == |s|
    decreases |s|
  {
    if s != [] { ReversedLength(s[1..]); }
  }

  lemma TenBillion()
    ensures Power10(10) == 10_000_000_000
  {
    assert Power10(5) == 100_000;
    assert Power10(10) == 10 * (10 * (10 * (10 * (10 * Power10(5)))));
  }

  // ---------------------------------------------------------------- formats

  datatype Arg = Int(i: int) | Char(c: byte) | Str(s: Bytes)

  const LOWER_C: byte := 99
  const LOWER_D: byte := 100
  const LOWER_S: byte := 115
  const LOWER_U: byte := 117
  const LOWER_X: byte := 120

  predicate Directive(c: byte) {
    c == LOWER_C || c == LOWER_D || c == LOWER_S || c == LOWER_U || c == LOWER_X
  }

  /** The argument is of the kind the directive reads; the most negative int has no negation to print. */
  predicate Fits(c: byte, a: Arg) {
    if c == LOWER_C then a.Char?
    else if c == LOWER_S then a.Str?
    else a.Int? && -INT_MAX - 1 <= a.i <= INT_MAX && (c == LOWER_D ==> a.i != -INT_MAX - 1)
  }

  /** What one directive prints. */
  function Piece(c: byte, a: Arg): Bytes
    requires Directive(c) && Fits(c, a)
  {
    if c == LOWER_C then [a.c]
    else if c == LOWER_S then a.s
    else if c == LOWER_D then Shown(a.i, 10, true)
    else if c == LOWER_U then Shown(a.i, 10, false)
    else [48, LOWER_X] + Shown(a.i, 16, false)
  }

  /** The number an int is when its bits are read without a sign. */
  function Unsigned(i: int): int {
    if i < 0 then i + WORD else i
  }

  /**
    What a directive prints is right: a character or string itself; for %d a minus sign where needed and the
    decimal numeral of the absolute value; for %u and %x the numeral of the unsigned value, for %x in radix
    sixteen after "0x".
   */
  ghost predicate Means(c: byte, a: Arg, s: Bytes) {
    if c == LOWER_C then a.Char? && s == [a.c]
    else if c == LOWER_S then a.Str? && s == a.s
    else if !a.Int? then false
    else if c == LOWER_D && a.i < 0 then
      |s| > 1 && s[0] == MINUS && IsNumeral(s[1..], 10) && Value(s[1..], 10) == -a.i
    else if c == LOWER_D then IsNumeral(s, 10) && Value(s, 10) == a.i
    else if c == LOWER_U then IsNumeral(s, 10) && Value(s, 10) == Unsigned(a.i)
    else |s| > 2 && s[..2] == [48, LOWER_X] && IsNumeral(s[2..], 16) && Value(s[2..], 16) == Unsigned(a.i)
  }

  /** A directive prints what is right, and nothing else would be. */
  lemma {:induction false} PieceExact(c: byte, a: Arg, s: Bytes)
    requires Directive(c) && Fits(c, a)
    ensures s == Piece(c, a) <==> Means(c, a, s)
  {
    hide Digits, Value, IsNumeral;
    if a.Int? {
      var p := Piece(c, a);
      var n, radix := if c == LOWER_D && a.i < 0 then -a.i else Unsigned(a.i), if c == LOWER_X then 16 else 10;
      assert a.i % WORD == Unsigned(a.i);
      DigitsDecode(n, radix);
      DigitsNumeral(n, radix);
      var d := Digits(n, radix);
      assert |d| >= 1;
      var skip := if c == LOWER_X then 2 else if c == LOWER_D && a.i < 0 then 1 else 0;
      assert p[skip..] == d && Means(c, a, p);
      if Means(c, a, s) {
        assert s[0..] == s;
        OneNumeral(s[skip..], d, radix);
        assert s == s[..skip] + s[skip..];
        assert p == p[..skip] + p[skip..];
      }
    }
  }

  /** There is a fitting argument for every directive. */
  predicate Matches(f: Bytes, args: seq<Arg>)
    decreases |f|
  {
    if f == [] then true
    else if f[0] != PERCENT then Matches(f[1..], args)
    else if |f| >= 2 && f[1] == PERCENT then Matches(f[2..], args)
    else if |f| >= 2 && Directive(f[1]) then args != [] && Fits(f[1], args[0]) && Matches(f[2..], args[1..])
    else true
  }

  /** What a format means: an unknown directive prints itself and everything after it. */
  function Expand(f: Bytes, args: seq<Arg>): Bytes
    requires Matches(f, args)
    decreases |f|
  {
    if f == [] then []
    else if f[0] != PERCENT then [f[0]] + Expand(f[1..], args)
    else if |f| >= 2 && f[1] == PERCENT then [PERCENT] + Expand(f[2..], args)
    else if |f| >= 2 && Directive(f[1]) then Piece(f[1], args[0]) + Expand(f[2..], args[1..])
    else f
  }

  lemma {:induction false} OneLiteral(f: Bytes, args: seq<Arg>)
    requires Matches(f, args) && f != [] && f[0] != PERCENT
    ensures Matches(f[1..], args) && Expand(f, args) == [f[0]] + Expand(f[1..], args)
  {
  }

  lemma {:induction false} TwoPercents(f: Bytes, args: seq<Arg>)
    requires Matches(f, args) && |f| >= 2 && f[0] == f[1] == PERCENT
    ensures Matches(f[2..], args) && Expand(f, args) == [PERCENT] + Expand(f[2..], args)
  {
  }

  /** A stretch without a percent sign prints itself. */
  lemma {:induction false} Literals(f: Bytes, args: seq<Arg>, k: nat)
    requires Matches(f, args) && k <= |f| && forall j :: 0 <= j < k ==> f[j] != PERCENT
    ensures Matches(f[k..], args) && Expand(f, args) == f[..k] + Expand(f[k..], args)
    decreases k
  {
    hide Matches, Expand;
    if k == 0 {
      assert f[0..] == f;
    } else {
      OneLiteral(f, args);
      Literals(f[1..], args, k - 1);
      assert f[1..][k - 1..] == f[k..];
      assert f[..k] == [f[0]] + f[1..][..k - 1];
    }
  }

  /** A text as a format that prints it: every percent sign doubled. */
  function Escaped(s: Bytes): Bytes {
    if s == [] then [] else (if s[0] == PERCENT then [PERCENT, PERCENT] else [s[0]]) + Escaped(s[1..])
  }

  /** The round trip: an escaped text prints as the text, whatever arguments come with it. */
  lemma {:induction false} EscapedPrintsItself(s: Bytes, args: seq<Arg>)
    ensures Matches(Escaped(s), args) && Expand(Escaped(s), args) == s
    decreases |s|
  {
    if s != [] {
      var f, rest := Escaped(s), Escaped(s[1..]);
      EscapedPrintsItself(s[1..], args);
      assert f[if s[0] == PERCENT then 2 else 1..] == rest;
    }
  }

  /** One converted directive, by way of the number routine. */
  method Convert(c: byte, a: Arg) returns (piece: Bytes)
    requires Directive(c) && Fits(c, a)
    ensures piece == Piece(c, a)
  {
    hide Shown;
    var len;
    if c == LOWER_D {
      piece, len := PrintInt(a.i, 10, true);
    } else if c == LOWER_U {
      piece, len := PrintInt(a.i, 10, false);
    } else if c == LOWER_X {
      piece, len := PrintInt(a.i, 16, false);
      piece := [48, LOWER_X] + piece;
    } else if c == LOWER_C {
      piece := [a.c];
    } else {
      piece := a.s;
    }
  }

  /** The literal stretch at `p`: its first character whatever it is, and on to the next percent sign. */
  method Stretch(f: Bytes, p: nat) returns (amount: nat)
    requires p < |f|
    ensures 1 <= amount <= |f| - p && forall j :: p + 1 <= j < p + amount ==> f[j] != PERCENT
    ensures p + amount < |f| ==> f[p + amount] == PERCENT
  {
    amount := 1;
    while p + amount < |f| && f[p + amount] != PERCENT
      invariant 1 <= amount <= |f| - p && forall j :: p + 1 <= j < p + amount ==> f[j] != PERCENT
    {
      amount := amount + 1;
    }
  }

  /** What is left to print after a literal stretch. */
  lemma {:induction false} AfterStretch(f: Bytes, args: seq<Arg>, skip: nat, amount: nat)
    requires Matches(f, args) && f != [] && (f[0] != PERCENT || (|f| >= 2 && f[1] == PERCENT))
    requires skip == (if f[0] == PERCENT then 1 else 0) && 1 <= amount <= |f| - skip
    requires forall j :: skip + 1 <= j < skip + amount ==> f[j] != PERCENT
    ensures Matches(f[skip + amount..], args)
    ensures Expand(f, args) == f[skip..skip + amount] + Expand(f[skip + amount..], args)
  {
    hide Matches, Expand;
    var rest := f[skip + 1..];
    if skip == 0 { OneLiteral(f, args); } else { TwoPercents(f, args); }
    Literals(rest, args, amount - 1);
    assert rest[amount - 1..] == f[skip + amount..];
    assert f[skip..skip + amount] == [f[skip]] + rest[..amount - 1];
  }

  /** `out` is printed, and the format from `p` with the arguments from `a` is still to come. */
  ghost predicate Progress(f: Bytes, args: seq<Arg>, p: nat, a: nat, out: Bytes)
    requires Matches(f, args)
  {
    && p <= |f| && a <= |args| && Matches(f[p..], args[a..])
    && out + Expand(f[p..], args[a..]) == Expand(f, args)
  }

  predicate LiteralAt(f: Bytes, p: nat)
    requires p < |f|
  {
    f[p] != PERCENT || (p + 1 < |f| && f[p + 1] == PERCENT)
  }

  lemma {:induction false} LiteralStep(f: Bytes, args: seq<Arg>, p: nat, a: nat, out: Bytes, skip: nat, amount: nat)
    requires Matches(f, args) && Progress(f, args, p, a, out) && p < |f| && LiteralAt(f, p)
    requires skip == (if f[p] == PERCENT then 1 else 0) && 1 <= amount <= |f| - p - skip
    requires forall j :: p + skip + 1 <= j < p + skip + amount ==> f[j] != PERCENT
    ensures Progress(f, args, p + skip + amount, a, out + f[p + skip..p + skip + amount])
    ensures |out| + amount <= |Expand(f, args)|
  {
    hide Expand, Matches;
    var rest := args[a..];
    AfterStretch(f[p..], rest, skip, amount);
    Slices(f, p, skip, skip + amount);
    Appended(out, f[p + skip..p + skip + amount], Expand(f[p + skip + amount..], rest));
  }

  lemma {:induction false} DirectiveStep(f: Bytes, args: seq<Arg>, p: nat, a: nat, out: Bytes)
    requires Matches(f, args) && Progress(f, args, p, a, out)
    requires p + 1 < |f| && !LiteralAt(f, p) && Directive(f[p + 1])
    ensures a < |args| && Fits(f[p + 1], args[a])
    ensures Progress(f, args, p + 2, a + 1, out + Piece(f[p + 1], args[a]))
    ensures |out| + |Piece(f[p + 1], args[a])| <= |Expand(f, args)|
  {
    hide Expand, Matches, Piece, Fits;
    AtDirective(f[p..], args[a..]);
    Slices(f, p, 0, 2);
    assert args[a..][1..] == args[a + 1..];
    Appended(out, Piece(f[p + 1], args[a]), Expand(f[p + 2..], args[a + 1..]));
  }

  lemma {:induction false} LastStep(f: Bytes, args: seq<Arg>, p: nat, a: nat, out: Bytes)
    requires Matches(f, args) && Progress(f, args, p, a, out)
    requires p < |f| ==> !LiteralAt(f, p) && (p + 1 < |f| ==> !Directive(f[p + 1]))
    ensures out + f[p..] == Expand(f, args)
  {
    if p < |f| { AtUnknown(f[p..], args[a..]); } else { AtEnd(f[p..], args[a..]); }
  }

  lemma {:induction false} FirstStep(f: Bytes, args: seq<Arg>)
    requires Matches(f, args)
    ensures Progress(f, args, 0, 0, [])
  {
    assert f[0..] == f && args[0..] == args;
  }

  /**
    The whole routine: if the expansion fits in an int, exactly the expansion is printed and its
    length returned; if not, the answer is -1.
   */
  method Print(f: Bytes, args: seq<Arg>) returns (written: int, out: Bytes)
    requires Matches(f, args)
    ensures |Expand(f, args)| <= INT_MAX ==> written == |Expand(f, args)| && out == Expand(f, args)
    ensures |Expand(f, args)| > INT_MAX ==> written == -1
  {
    hide Expand, Matches, Piece, Fits, Progress;
    written, out := 0, [];
    var p, a := 0, 0;
    FirstStep(f, args);
    while p < |f|
      invariant 0 <= p <= |f| && 0 <= a && Progress(f, args, p, a, out) && written == |out| <= INT_MAX
      decreases |f| - p
    {
      var maxrem := INT_MAX - written;
      if LiteralAt(f, p) {
        var skip := if f[p] == PERCENT then 1 else 0;
        var amount := Stretch(f, p + skip);
        LiteralStep(f, args, p, a, out, skip, amount);
        if maxrem < amount {
          return -1, out;
        }
        out := out + f[p + skip..p + skip + amount];
        p := p + skip + amount;
        written := written + amount;
      } else if p + 1 < |f| && Directive(f[p + 1]) {
        DirectiveStep(f, args, p, a, out);
        var piece := Convert(f[p + 1], args[a]);
        out := out + piece;
        if maxrem < |piece| {
          return -1, out;
        }
        p, a := p + 2, a + 1;
        written := written + |piece|;
      } else {
        LastStep(f, args, p, a, out);
        if maxrem < |f| - p {
          return -1, out;
        }
        out := out + f[p..];
        written := written + (|f| - p);
        return;
      }
    }
    LastStep(f, args, p, a, out);
    assert f[p..] == [];
  }

  lemma Slices(f: Bytes, p: nat, i: nat, j: nat)
    requires i <= j && p + j <= |f|
    ensures f[p..][j..] == f[p + j..] && f[p..][i..j] == f[p + i..p + j]
  {
  }

  lemma Appended(a: Bytes, b: Bytes, c: Bytes)
    ensures a + b + c == a + (b + c)
  {
  }

  lemma {:induction false} AtDirective(f: Bytes, args: seq<Arg>)
    requires Matches(f, args) && |f| >= 2 && f[0] == PERCENT && f[1] != PERCENT && Directive(f[1])
    ensures args != [] && Fits(f[1], args[0]) && Matches(f[2..], args[1..])
    ensures Expand(f, args) == Piece(f[1], args[0]) + Expand(f[2..], args[1..])
  {
  }

  lemma {:induction false} AtUnknown(f: Bytes, args: seq<Arg>)
    requires Matches(f, args) && f != [] && f[0] == PERCENT && (|f| >= 2 ==> f[1] != PERCENT && !Directive(f[1]))
    ensures Expand(f, args) == f
  {
  }

  lemma {:induction false} AtEnd(f: Bytes, args: seq<Arg>)
    requires f == []
    ensures Matches(f, args) && Expand(f, args) == []
  {
  }
}
