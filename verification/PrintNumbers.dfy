/**
 The number printers of bootloader/gnu-efi/lib/print.c and the parsers of bootloader/gnu-efi/lib/str.c
 that undo them.

 Printers fill a digit buffer from the least significant digit, then copy it out backwards.  Parsers
 skip blanks, then accumulate digits modulo 2^64 up to the first other character.
 */
module PrintNumbers {
  import opened Basics
  import opened Digits

  const BLANK: Char16 := 0x20
  const COMMA: Char16 := 0x2C
  const MINUS: Char16 := 0x2D

  // ----- the printers -----

  lemma NextLowDigit(base: Base, v: nat, all: seq<nat>, n: nat)
    requires v != 0 && n <= |all| && LowDigits(base, v) == all[n..]
    ensures n < |all| && all[n] == Remainder(base, v) && LowDigits(base, Quotient(base, v)) == all[n + 1..]
  {
    assert all[n..][0] == all[n] && all[n..][1..] == all[n + 1..];
  }

  lemma CharsNext(ds: seq<nat>, n: nat)
    requires n < |ds|
    ensures Chars(ds[..n + 1]) == Chars(ds[..n]) + [DigitChar(ds[n])]
  {
    assert ds[..n + 1] == ds[..n] + [ds[n]] && [ds[n]][1..] == [];
    CharsConcat(ds[..n], [ds[n]]);
  }

  /** Fills a digit buffer from the least significant digit; returns the number of digits. */
  method FillDigits(base: Base, v0: nat, str: array<Char16>) returns (n: nat)
    requires v0 < TWO64 && str.Length >= 20
    modifies str
    ensures n == |LowDigits(base, v0)| <= 20
    ensures str[..n] == Chars(LowDigits(base, v0))
  {
    Below64(v0);
    ghost var all := LowDigits(base, v0);
    var v: nat := v0;
    n := 0;
    while v != 0
      invariant n <= |all| && LowDigits(base, v) == all[n..]
      invariant str[..n] == Chars(all[..n])
      decreases v
    {
      NextLowDigit(base, v, all, n);
      CharsNext(all, n);
      ghost var done := str[..n];
      str[n] := DigitChar(Remainder(base, v));
      v := Quotient(base, v);
      n := n + 1;
      assert str[..n] == done + [str[n - 1]];
    }
    assert all[..n] == all;
  }

  /** Copies the first n characters backwards into the buffer and terminates them. */
  method CopyBackwards(str: array<Char16>, n0: nat, buffer: array<Char16>)
    requires n0 <= str.Length && n0 < buffer.Length && str != buffer
    modifies buffer
    ensures buffer[..] == Reverse(str[..n0]) + [0] + old(buffer[n0 + 1..])
  {
    ghost var digits := str[..n0];
    var n, p2 := n0, 0;
    while n != 0
      invariant n + p2 == n0 && str[..n0] == digits
      invariant forall k :: 0 <= k < p2 ==> buffer[k] == digits[n0 - 1 - k]
      invariant forall k :: n0 <= k < buffer.Length ==> buffer[k] == old(buffer[k])
    {
      n := n - 1;
      assert digits[n] == str[n];
      buffer[p2] := str[n];
      p2 := p2 + 1;
    }
    buffer[p2] := 0;
    forall k | 0 <= k < n0 ensures buffer[k] == Reverse(digits)[k] {
      ReverseAt(digits, k);
    }
    assert buffer[..n0] == Reverse(digits);
    assert buffer[n0 + 1..] == old(buffer[n0 + 1..]);
    assert buffer[..] == buffer[..n0] + [buffer[n0]] + buffer[n0 + 1..];
  }

  /** Prints v in hexadecimal, zero terminated, and leaves the rest of the buffer alone. */
  method ValueToHex(buffer: array<Char16>, v: nat)
    requires v < TWO64 && buffer.Length >= 17
    modifies buffer
    ensures |Text(16, v)| <= 16
    ensures buffer[..] == Text(16, v) + [0] + old(buffer[|Text(16, v)| + 1..])
  {
    if v == 0 {
      buffer[0], buffer[1] := ZERO, 0;
      assert Text(16, 0) == [ZERO];
      assert buffer[..] == [ZERO] + [0] + buffer[2..];
      return;
    }
    Below64(v);
    var str := new Char16[30];
    var n := FillDigits(16, v, str);
    CopyBackwards(str, n, buffer);
    ReverseChars(LowDigits(16, v));
  }

  // ----- commas -----

  /** A comma before every group of three characters counted from the right, except in front. */
  function Grouped(t: seq<Char16>): seq<Char16> {
    if |t| == 0 then [] else [t[0]] + Continued(t[1..])
  }

  /** The same after at least one character. */
  function Continued(t: seq<Char16>): seq<Char16>
    decreases |t|, 1
  {
    if |t| == 0 then [] else (if |t| % 3 == 0 then [COMMA] else []) + [t[0]] + Continued(t[1..])
  }

  function WithoutCommas(t: seq<Char16>): seq<Char16> {
    if |t| == 0 then [] else (if t[0] == COMMA then [] else [t[0]]) + WithoutCommas(t[1..])
  }

  ghost predicate NoComma(t: seq<Char16>) {
    forall k :: 0 <= k < |t| ==> t[k] != COMMA
  }

  lemma StripCons(x: Char16, t: seq<Char16>)
    ensures WithoutCommas([x] + t) == (if x == COMMA then [] else [x]) + WithoutCommas(t)
  {
    assert ([x] + t)[1..] == t;
  }

  lemma ContinuedUnfold(t: seq<Char16>)
    requires |t| > 0
    ensures var rest := [t[0]] + Continued(t[1..]);
            Continued(t) == if |t| % 3 == 0 then [COMMA] + rest else rest
  {}

  lemma {:induction false} StripContinued(t: seq<Char16>)
    requires NoComma(t)
    ensures WithoutCommas(Continued(t)) == t
    decreases |t|
  {
    if |t| != 0 {
      StripContinued(t[1..]);
      ContinuedUnfold(t);
      StripCons(t[0], Continued(t[1..]));
      StripCons(COMMA, [t[0]] + Continued(t[1..]));
      assert [t[0]] + t[1..] == t;
    }
  }

  /** Deleting the commas gives the plain digits. */
  lemma StripGrouped(t: seq<Char16>)
    requires NoComma(t)
    ensures WithoutCommas(Grouped(t)) == t
  {
    if |t| != 0 {
      StripContinued(t[1..]);
      StripCons(t[0], Continued(t[1..]));
    }
  }

  /** Counted from the right, exactly every fourth character is a comma. */
  ghost predicate EveryFourth(g: seq<Char16>) {
    forall j :: 0 <= j < |g| ==> (g[|g| - 1 - j] == COMMA <==> j % 4 == 3)
  }

  lemma EveryFourthCons(x: Char16, g: seq<Char16>)
    requires EveryFourth(g) && (x == COMMA <==> |g| % 4 == 3)
    ensures EveryFourth([x] + g)
  {
    var h := [x] + g;
    forall j | 0 <= j < |h| ensures h[|h| - 1 - j] == COMMA <==> j % 4 == 3 {
      if j < |g| {
        assert h[|h| - 1 - j] == g[|g| - 1 - j];
      }
    }
  }

  lemma CommaPlace(n: nat)
    requires n > 0
    ensures var g := (n - 1) + (n - 1) / 3;
            && g % 4 != 3
            && (n % 3 == 0 ==> (g + 1) % 4 == 3 && g + 2 == n + n / 3)
            && (n % 3 != 0 ==> g + 1 == n + n / 3)
  {
    var q, r := (n - 1) / 3, (n - 1) % 3;
    Remainder4(4 * q + r, q, r);
    if r == 2 {
      Remainder3(n, q + 1, 0);
      Remainder4(4 * q + 3, q, 3);
    } else {
      Remainder3(n, q, r + 1);
    }
  }

  lemma Remainder3(x: nat, q: nat, r: nat)
    requires x == 3 * q + r && r < 3
    ensures x / 3 == q && x % 3 == r
  {}

  lemma Remainder4(x: nat, q: nat, r: nat)
    requires x == 4 * q + r && r < 4
    ensures x % 4 == r
  {}

  lemma {:induction false} ContinuedShape(t: seq<Char16>)
    requires NoComma(t)
    ensures EveryFourth(Continued(t)) && |Continued(t)| == |t| + |t| / 3
    decreases |t|
  {
    if |t| != 0 {
      ContinuedShape(t[1..]);
      CommaPlace(|t|);
      ContinuedUnfold(t);
      EveryFourthCons(t[0], Continued(t[1..]));
      if |t| % 3 == 0 {
        EveryFourthCons(COMMA, [t[0]] + Continued(t[1..]));
      }
    }
  }

  /** Commas stand exactly before each group of three from the right, and never in front. */
  lemma GroupedShape(t: seq<Char16>)
    requires NoComma(t) && |t| > 0
    ensures EveryFourth(Grouped(t)) && Grouped(t)[0] != COMMA && |Grouped(t)| == |t| + (|t| - 1) / 3
  {
    ContinuedShape(t[1..]);
    EveryFourthCons(t[0], Continued(t[1..]));
  }

  // ----- signed decimal -----

  function Sign(v: int): seq<Char16> {
    if v < 0 then [MINUS] else []
  }

  /** The text of a signed number, with or without commas. */
  function SignedText(v: int, comma: bool): seq<Char16> {
    var digits := Text(10, Magnitude(v));
    Sign(v) + (if comma then Grouped(digits) else digits)
  }

  /** The countdown to the next comma, with k of n digits still to be written. */
  ghost predicate Countdown(comma: bool, c: int, k: nat, n: nat) {
    if comma then
      c == if k % 3 != 0 then k % 3 + 1 else if k == n then 4 else 1
    else
      c == 1000 - (n - k)
  }

  /** What is still to be written. */
  ghost function Pending(comma: bool, rest: seq<Char16>, first: bool): seq<Char16> {
    if !comma then rest else if first then Grouped(rest) else Continued(rest)
  }

  lemma PendingStep(comma: bool, rest: seq<Char16>, first: bool, done: seq<Char16>, goal: seq<Char16>)
    requires |rest| > 0 && done + Pending(comma, rest, first) == goal
    ensures var separator: seq<Char16> := if comma && !first && |rest| % 3 == 0 then [COMMA] else [];
            (done + separator + [rest[0]]) + Pending(comma, rest[1..], false) == goal
  {
    var separator: seq<Char16> := if comma && !first && |rest| % 3 == 0 then [COMMA] else [];
    var after := Pending(comma, rest[1..], false);
    Regroup(done, separator, [rest[0]], after);
    assert Pending(comma, rest, first) == separator + ([rest[0]] + after) by {
      if !comma {
        assert rest == [rest[0]] + rest[1..];
      } else if !first {
        ContinuedUnfold(rest);
      }
      EmptyLeft([rest[0]] + after);
    }
  }

  lemma Regroup<T>(a: seq<T>, b: seq<T>, c: seq<T>, d: seq<T>)
    ensures (a + b + c) + d == a + (b + (c + d))
  {}

  lemma EmptyLeft<T>(a: seq<T>)
    ensures [] + a == a
  {}

  lemma CountdownStep(comma: bool, c: int, k: nat, n: nat)
    requires 0 < k <= n <= 20 && Countdown(comma, c, k, n)
    ensures c == 1 <==> comma && k != n && k % 3 == 0
    ensures Countdown(comma, if c == 1 then 3 else c - 1, k - 1, n)
  {}

  /** Writes a character, after a comma if the countdown has run out. */
  method EmitDigit(buffer: array<Char16>, p2: nat, c: int, d: Char16) returns (newPos: nat, newC: int)
    requires p2 + (if c == 1 then 2 else 1) <= buffer.Length
    modifies buffer
    ensures newPos == p2 + (if c == 1 then 2 else 1) && newC == if c == 1 then 3 else c - 1
    ensures buffer[..newPos] == old(buffer[..p2]) + (if c == 1 then [COMMA] else []) + [d]
    ensures buffer[newPos..] == old(buffer[newPos..])
  {
    newPos, newC := p2, c - 1;
    if newC == 0 {
      buffer[newPos] := COMMA;
      newPos := newPos + 1;
      newC := 3;
    }
    buffer[newPos] := d;
    newPos := newPos + 1;
  }

  lemma GroupedLength(comma: bool, digits: seq<Char16>)
    requires 0 < |digits| <= 20 && NoComma(digits)
    ensures |Pending(comma, digits, true)| <= 26
  {
    GroupedShape(digits);
  }

  /** k of the n digits are still to be written after what is done. */
  ghost predicate Emitting(comma: bool, digits: seq<Char16>, k: nat, c: int, done: seq<Char16>, goal: seq<Char16>) {
    && k <= |digits| && Countdown(comma, c, k, |digits|) && |done| <= |goal|
    && done + Pending(comma, digits[|digits| - k..], k == |digits|) == goal
  }

  lemma EmittingNext(comma: bool, digits: seq<Char16>, k: nat, c: int, done: seq<Char16>, goal: seq<Char16>)
    requires 0 < k <= |digits| <= 20 && Emitting(comma, digits, k, c, done, goal)
    ensures var next := done + (if c == 1 then [COMMA] else []) + [digits[|digits| - k]];
            |next| <= |goal| && Emitting(comma, digits, k - 1, if c == 1 then 3 else c - 1, next, goal)
  {
    var rest := digits[|digits| - k..];
    PendingStep(comma, rest, k == |digits|, done, goal);
    CountdownStep(comma, c, k, |digits|);
    assert rest[1..] == digits[|digits| - (k - 1)..];
  }

  ghost predicate Backwards(s: seq<Char16>, t: seq<Char16>) {
    |t| == |s| && forall k :: 0 <= k < |s| ==> s[k] == t[|s| - 1 - k]
  }

  lemma ReverseIsBackwards(s: seq<Char16>)
    ensures Backwards(s, Reverse(s))
  {
    forall k | 0 <= k < |s| ensures s[k] == Reverse(s)[|s| - 1 - k] {
      ReverseAt(s, |s| - 1 - k);
    }
  }

  /** Copies the digits backwards, inserting commas by the source's countdown; returns the end position. */
  method CopyGrouped(str: array<Char16>, n: nat, comma: bool, buffer: array<Char16>, at: nat, ghost digits: seq<Char16>)
    returns (p2: nat)
    requires 0 < n <= 20 && n <= str.Length && str != buffer && Backwards(str[..n], digits)
    requires at + |Pending(comma, digits, true)| <= buffer.Length
    modifies buffer
    ensures p2 == at + |Pending(comma, digits, true)|
    ensures buffer[..p2] == old(buffer[..at]) + Pending(comma, digits, true)
    ensures buffer[p2..] == old(buffer[p2..])
  {
    ghost var goal := buffer[..at] + Pending(comma, digits, true);
    var c := FirstCount(comma, n);
    p2 := at;
    var k: nat := n;
    assert digits[0..] == digits;
    while k != 0
      invariant p2 <= |goal| && Emitting(comma, digits, k, c, buffer[..p2], goal)
      invariant buffer[|goal|..] == old(buffer[|goal|..])
    {
      k := k - 1;
      p2, c := EmitNext(str, n, k, comma, buffer, p2, c, digits, goal);
    }
  }

  method FirstCount(comma: bool, n: nat) returns (c: int)
    ensures Countdown(comma, c, n, n)
  {
    var ca := [3, 1, 2];
    c := (if comma then ca[n % 3] else 999) + 1;
  }

  method EmitNext(str: array<Char16>, n: nat, k: nat, comma: bool, buffer: array<Char16>, p2: nat, c: int,
                  ghost digits: seq<Char16>, ghost goal: seq<Char16>)
    returns (newPos: nat, newC: int)
    requires k < n <= 20 && n <= str.Length && str != buffer && Backwards(str[..n], digits)
    requires p2 <= |goal| <= buffer.Length && Emitting(comma, digits, k + 1, c, buffer[..p2], goal)
    modifies buffer
    ensures newPos <= |goal| && Emitting(comma, digits, k, newC, buffer[..newPos], goal)
    ensures buffer[|goal|..] == old(buffer[|goal|..])
  {
    EmittingNext(comma, digits, k + 1, c, buffer[..p2], goal);
    assert str[k] == str[..n][k];
    newPos, newC := EmitDigit(buffer, p2, c, str[k]);
    assert buffer[|goal|..] == buffer[newPos..][|goal| - newPos..];
  }

  lemma TextHasNoComma(ds: seq<nat>)
    ensures NoComma(Chars(ds))
  {
    CharsFromZero(ds);
  }

  /** The digits of a nonzero number, with or without commas, written from a position on. */
  method PrintMagnitude(buffer: array<Char16>, at: nat, comma: bool, m: nat) returns (p2: nat)
    requires 0 < m < TWO64 && at + 26 <= buffer.Length
    modifies buffer
    ensures var text := Pending(comma, Text(10, m), true);
            && |text| <= 26 && p2 == at + |text|
            && buffer[..p2] == old(buffer[..at]) + text
            && buffer[p2..] == old(buffer[p2..])
  {
    var str := new Char16[40];
    var n := FillDigits(10, m, str);
    ghost var low := LowDigits(10, m);
    ReverseChars(low);
    ReverseIsBackwards(str[..n]);
    TextHasNoComma(Reverse(low));
    ghost var digits := Text(10, m);
    GroupedLength(comma, digits);
    p2 := CopyGrouped(str, n, comma, buffer, at, digits);
  }

  method Terminate(buffer: array<Char16>, p2: nat)
    requires p2 < buffer.Length
    modifies buffer
    ensures buffer[..] == old(buffer[..p2]) + [0] + old(buffer[p2 + 1..])
  {
    buffer[p2] := 0;
  }

  /** The sign, if any, and the digits of a nonzero number. */
  method PrintSigned(buffer: array<Char16>, comma: bool, v: int) returns (p2: nat)
    requires -TWO63 <= v < TWO63 && v != 0 && buffer.Length >= 28
    modifies buffer
    ensures p2 == |SignedText(v, comma)| <= 27
    ensures buffer[..p2] == SignedText(v, comma) && buffer[p2..] == old(buffer[p2..])
  {
    p2 := 0;
    if v < 0 {
      buffer[p2] := MINUS;
      p2 := 1;
    }
    ghost var signed := buffer[..];
    assert buffer[..p2] == Sign(v) && signed[1..] == old(buffer[1..]);
    p2 := PrintMagnitude(buffer, p2, comma, Magnitude(v));
    assert buffer[p2..] == signed[p2..] == signed[1..][p2 - 1..];
  }

  /** Prints v in decimal, zero terminated.  The magnitude of -2^63 is taken as an unsigned value. */
  method ValueToString(buffer: array<Char16>, comma: bool, v: int)
    requires -TWO63 <= v < TWO63 && buffer.Length >= 28
    modifies buffer
    ensures |SignedText(v, comma)| <= 27
    ensures buffer[..] == SignedText(v, comma) + [0] + old(buffer[..])[|SignedText(v, comma)| + 1..]
  {
    ghost var text, memory := SignedText(v, comma), buffer[..];
    if v == 0 {
      ZeroText(comma);
      buffer[0] := ZERO;
      assert buffer[..1] == [ZERO] && buffer[1..] == memory[1..];
      FinishText(buffer, 1, text, memory);
    } else {
      var p2 := PrintSigned(buffer, comma, v);
      assert buffer[p2..] == memory[p2..];
      FinishText(buffer, p2, text, memory);
    }
  }

  /** Terminates a text at the start of the buffer. */
  method FinishText(buffer: array<Char16>, p2: nat, ghost text: seq<Char16>, ghost memory: seq<Char16>)
    requires p2 == |text| < buffer.Length == |memory| && buffer[..p2] == text && buffer[p2..] == memory[p2..]
    modifies buffer
    ensures buffer[..] == text + [0] + memory[|text| + 1..]
  {
    assert buffer[p2 + 1..] == buffer[p2..][1..];
    Terminate(buffer, p2);
  }

  lemma ZeroText(comma: bool)
    ensures SignedText(0, comma) == [ZERO]
  {
    assert Text(10, 0) == [ZERO] && Grouped([ZERO]) == [ZERO];
  }

  // ----- the parsers -----

  /** The value of a digit character; base or more for any other character. */
  function DigitValue(base: Base, c: Char16): nat {
    if ZERO <= c <= NINE then c - ZERO
    else if base == 16 && UPPER_A <= c <= UPPER_F then c - UPPER_A + 10
    else if base == 16 && LOWER_A <= c <= LOWER_F then c - LOWER_A + 10
    else 99
  }

  function SkipBlanks(s: seq<Char16>): seq<Char16> {
    if |s| > 0 && s[0] == BLANK then SkipBlanks(s[1..]) else s
  }

  /** The digit values up to the first character that is not a digit. */
  function LeadingDigits(base: Base, s: seq<Char16>): seq<nat> {
    if |s| > 0 && DigitValue(base, s[0]) < base then [DigitValue(base, s[0])] + LeadingDigits(base, s[1..]) else []
  }

  /** What the parsers return: blanks are skipped and the leading digits taken modulo 2^64. */
  function Parsed(base: Base, s: seq<Char16>): nat {
    Mod64(Value(base, 0, LeadingDigits(base, SkipBlanks(s))))
  }

  /** The accumulation loop that xtoi and Atoi share up to the base. */
  ghost predicate Accumulates(base: Base, u: nat, rest: seq<Char16>, total: nat, exact: nat) {
    u == Mod64(exact) && Value(base, exact, LeadingDigits(base, rest)) == total
  }

  lemma AccumulateStep(base: Base, u: nat, s: seq<Char16>, total: nat, exact: nat)
    requires |s| > 0 && DigitValue(base, s[0]) < base && Accumulates(base, u, s, total, exact)
    ensures var d := DigitValue(base, s[0]);
            Accumulates(base, Mod64(Times(base, u) + d), s[1..], total, Times(base, exact) + d)
  {
    var d := DigitValue(base, s[0]);
    ModStep(base, exact, d);
    assert LeadingDigits(base, s)[1..] == LeadingDigits(base, s[1..]);
  }

  /** The loop's accumulator after one more character. */
  lemma NextDigit(base: Base, u: nat, str: seq<Char16>, i: nat, total: nat, exact: nat, d: nat)
    requires i < |str| && Accumulates(base, u, str[i..], total, exact) && d == DigitValue(base, str[i]) < base
    ensures Accumulates(base, Mod64(Times(base, u) + d), str[i + 1..], total, Times(base, exact) + d)
  {
    assert str[i..][0] == str[i] && str[i..][1..] == str[i + 1..];
    AccumulateStep(base, u, str[i..], total, exact);
  }

  lemma NoMoreDigits(base: Base, u: nat, str: seq<Char16>, i: nat, total: nat, exact: nat)
    requires i < |str| && Accumulates(base, u, str[i..], total, exact) && DigitValue(base, str[i]) >= base
    ensures u == Mod64(total)
  {
    assert str[i..][0] == str[i];
  }

  /** Skips blanks from the start of a string. */
  method SkipPrecedingBlanks(str: seq<Char16>) returns (i: nat)
    requires ZeroTerminated(str)
    ensures i < |str| && str[i..] == SkipBlanks(str)
  {
    i := 0;
    assert str[0..] == str;
    while str[i] == BLANK
      invariant i < |str| && SkipBlanks(str[i..]) == SkipBlanks(str)
      decreases |str| - i
    {
      assert str[i..][1..] == str[i + 1..];
      i := i + 1;
    }
  }

  method Xtoi(str: seq<Char16>) returns (u: nat)
    requires ZeroTerminated(str)
    ensures u == Parsed(16, str)
  {
    var i := SkipPrecedingBlanks(str);
    u := 0;
    ghost var total := Value(16, 0, LeadingDigits(16, str[i..]));
    ghost var exact: nat := 0;
    while str[i] != 0
      invariant i < |str| && Accumulates(16, u, str[i..], total, exact)
      decreases |str| - i
    {
      var c: int := str[i];
      if LOWER_A <= c <= LOWER_F { c := c - (LOWER_A - UPPER_A); }
      if !(ZERO <= c <= NINE || UPPER_A <= c <= UPPER_F) { break; }
      var d: nat := c - (if c >= UPPER_A then UPPER_A - 10 else ZERO);
      NextDigit(16, u, str, i, total, exact, d);
      u, exact := Mod64(16 * u + d), 16 * exact + d;
      i := i + 1;
    }
    NoMoreDigits(16, u, str, i, total, exact);
  }

  method Atoi(str: seq<Char16>) returns (u: nat)
    requires ZeroTerminated(str)
    ensures u == Parsed(10, str)
  {
    var i := SkipPrecedingBlanks(str);
    u := 0;
    ghost var total := Value(10, 0, LeadingDigits(10, str[i..]));
    ghost var exact: nat := 0;
    while str[i] != 0
      invariant i < |str| && Accumulates(10, u, str[i..], total, exact)
      decreases |str| - i
    {
      var c: int := str[i];
      if !(ZERO <= c <= NINE) { break; }
      var d: nat := c - ZERO;
      NextDigit(10, u, str, i, total, exact, d);
      u, exact := Mod64(10 * u + d), 10 * exact + d;
      i := i + 1;
    }
    NoMoreDigits(10, u, str, i, total, exact);
  }

  // ----- round trips -----

  lemma {:induction false} LeadingDigitsOfChars(base: Base, ds: seq<nat>, after: seq<Char16>)
    requires AreDigits(base, ds) && LeadingDigits(base, after) == []
    ensures LeadingDigits(base, Chars(ds) + after) == ds
    decreases |ds|
  {
    if |ds| == 0 {
      assert Chars(ds) + after == after;
    } else {
      var rest := Chars(ds[1..]) + after;
      LeadingDigitsOfChars(base, ds[1..], after);
      LeadingCons(base, ds[0], rest);
      assert Chars(ds) + after == [DigitChar(ds[0])] + rest;
    }
  }

  lemma LeadingCons(base: Base, d: nat, rest: seq<Char16>)
    requires d < base
    ensures LeadingDigits(base, [DigitChar(d)] + rest) == [d] + LeadingDigits(base, rest)
  {
    assert ([DigitChar(d)] + rest)[1..] == rest;
    assert DigitValue(base, DigitChar(d)) == d;
  }

  lemma ParsedText(base: Base, v: nat, after: seq<Char16>)
    requires |after| == 0 || DigitValue(base, after[0]) >= base
    ensures Parsed(base, Text(base, v) + after) == Mod64(v)
  {
    WrittenValue(base, v);
    LeadingDigitsOfChars(base, Written(base, v), after);
    assert (Text(base, v) + after)[0] == DigitChar(Written(base, v)[0]) != BLANK;
  }

  /** xtoi undoes ValueToHex on every 64-bit value. */
  lemma XtoiUndoesValueToHex(v: nat)
    requires v < TWO64
    ensures Parsed(16, Text(16, v) + [0]) == v
  {
    ParsedText(16, v, [0]);
  }

  /** Atoi undoes ValueToString without commas on every nonnegative 64-bit signed value. */
  lemma AtoiUndoesValueToString(v: nat)
    requires v < TWO63
    ensures Parsed(10, SignedText(v, false) + [0]) == v
  {
    assert SignedText(v, false) + [0] == Text(10, v) + [0] by {
      assert Sign(v) == [] && Magnitude(v) == v;
      assert [] + Text(10, v) == Text(10, v);
    }
    ParsedText(10, v, [0]);
  }

  /** With commas, the text is the plain digits with a comma before each group of three from the right. */
  lemma CommasOnlySeparate(v: int)
    ensures var plain, text := Text(10, Magnitude(v)), SignedText(v, true);
            && text == Sign(v) + Grouped(plain)
            && WithoutCommas(Grouped(plain)) == plain
            && EveryFourth(Grouped(plain)) && |Grouped(plain)| > 0 && Grouped(plain)[0] != COMMA
  {
    WrittenValue(10, Magnitude(v));
    var ds := Written(10, Magnitude(v));
    TextHasNoComma(ds);
    StripGrouped(Chars(ds));
    GroupedShape(Chars(ds));
  }
}
