/**
 The kernel debugger's number conversions: s64_to_str and u64_to_hstr of debug/dbgio.c, and dbg_atol of
 arch/x86_64/debug/debug.c, which undoes them.

 dbg_atol accumulates decimal digits as a negative number, so that the most negative value needs no
 special case.  A signed 64-bit variable is modelled as wrapping, and a ghost result tells whether a
 step left the 64-bit range.
 */
module DebugNumbers {
  import opened Basics
  import opened Digits
  import opened PrintNumbers

  const PLUS: Char16 := 0x2B
  const LOWER_X: Char16 := 0x78
  const UPPER_X: Char16 := 0x58

  /** dbg_isspace: the subtraction is on 32-bit unsigned values. */
  predicate IsSpace(c: Char16) {
    c == BLANK || (c - 9) % 0x1_0000_0000 < 5
  }

  /** dbg_isdigit: likewise. */
  predicate IsDigit(c: Char16) {
    (c - ZERO) % 0x1_0000_0000 < 10
  }

  lemma CharacterClasses(c: Char16)
    ensures IsSpace(c) <==> c == 0x20 || 0x09 <= c <= 0x0D
    ensures IsDigit(c) <==> ZERO <= c <= NINE
  {}

  // ----- printing -----

  lemma WrittenStep(v: nat)
    ensures v < 10 ==> Written(10, v) == [v]
    ensures v >= 10 ==> Written(10, v) == Written(10, v / 10) + [v % 10]
  {
    if 0 < v < 10 {
      assert LowDigits(10, v) == [v] + LowDigits(10, 0);
      assert Reverse([v]) == [v];
    } else if v >= 10 {
      assert LowDigits(10, v)[1..] == LowDigits(10, v / 10);
    }
  }

  /** The decimal text of v, most significant digit first. */
  function Decimal(v: nat): (t: seq<Char16>)
    ensures |t| > 0
  {
    if v < 10 then [DigitChar(v)] else Decimal(v / 10) + [DigitChar(v % 10)]
  }

  lemma {:induction false} DecimalIsText(v: nat)
    ensures Decimal(v) == Text(10, v)
  {
    WrittenStep(v);
    if v >= 10 {
      DecimalIsText(v / 10);
      CharsAppend(Written(10, v / 10), v % 10);
    }
  }

  lemma CharsAppend(ds: seq<nat>, d: nat)
    ensures Chars(ds + [d]) == Chars(ds) + [DigitChar(d)]
  {
    CharsConcat(ds, [d]);
    assert [d][1..] == [];
  }

  /** One less than the number of decimal digits. */
  method CountDigits(v: nat) returns (length: nat)
    ensures length + 1 == |Decimal(v)|
  {
    var sizeTest: nat := v;
    length := 0;
    while sizeTest / 10 > 0
      invariant length + |Decimal(sizeTest)| == |Decimal(v)|
      decreases sizeTest
    {
      sizeTest := sizeTest / 10;
      length := length + 1;
    }
  }

  lemma DecimalStep(v: nat, done: seq<Char16>, text: seq<Char16>)
    requires Decimal(v) + done == text
    ensures v >= 10 ==> Decimal(v / 10) + ([DigitChar(v % 10)] + done) == text
    ensures v < 10 ==> [DigitChar(v)] + done == text
  {
    if v >= 10 {
      ConcatAssociative(Decimal(v / 10), [DigitChar(v % 10)], done);
    }
  }

  /** Stores a character in front of those up to end. */
  method StoreBefore(buf: array<Char16>, p: nat, end: nat, c: Char16)
    requires p < end <= buf.Length
    modifies buf
    ensures buf[p..end] == [c] + old(buf[p + 1..end])
    ensures buf[..p] == old(buf[..p])
  {
    buf[p] := c;
  }

  lemma PrefixOfPrefix<T>(a: seq<T>, b: seq<T>, n: nat, m: nat)
    requires n <= m <= |a| && m <= |b| && a[..m] == b[..m]
    ensures a[..n] == b[..n]
  {
    assert a[..n] == a[..m][..n] && b[..n] == b[..m][..n];
  }

  /** The digits of v belong at indices at to p, those up to end are written. */
  ghost predicate Filling(s: seq<Char16>, at: nat, p: nat, end: nat, v: nat, text: seq<Char16>) {
    at <= p < end <= |s| && |Decimal(v)| == p - at + 1 && Decimal(v) + s[p + 1..end] == text
  }

  /** Stores the last digit of v in front of the digits already written. */
  method StoreDecimal(buf: array<Char16>, at: nat, p: nat, end: nat, v: nat, ghost text: seq<Char16>)
    requires Filling(buf[..], at, p, end, v, text)
    modifies buf
    ensures buf[..at] == old(buf[..at])
    ensures v >= 10 ==> p > at && Filling(buf[..], at, p - 1, end, v / 10, text)
    ensures v < 10 ==> p == at && buf[at..end] == text
  {
    assert buf[..][p + 1..end] == buf[p + 1..end];
    DecimalStep(v, buf[p + 1..end], text);
    ghost var before := buf[..];
    StoreBefore(buf, p, end, DigitChar(v % 10));
    PrefixOfPrefix(buf[..], before, at, p);
    assert buf[..][p..end] == buf[p..end];
  }

  /** Writes the digits of v right to left, ending at index at + length. */
  method FillDecimal(buf: array<Char16>, at: nat, length: nat, v0: nat)
    requires length + 1 == |Decimal(v0)| && at + length < buf.Length
    modifies buf
    ensures buf[..at] == old(buf[..at])
    ensures buf[at..at + length + 1] == Decimal(v0)
  {
    ghost var text := Decimal(v0);
    var v: nat, p: nat := v0, at + length;
    var end := at + length + 1;
    assert text + buf[..][end..end] == text;
    while v / 10 > 0
      invariant Filling(buf[..], at, p, end, v, text)
      invariant buf[..at] == old(buf[..at])
      decreases v
    {
      StoreDecimal(buf, at, p, end, v, text);
      v := v / 10;
      p := p - 1;
    }
    StoreDecimal(buf, at, p, end, v, text);
  }

  /** Prints a signed value, zero terminated. */
  method S64ToStr(v: int, buf: array<Char16>)
    requires -TWO63 < v < TWO63 && buf.Length == 128
    modifies buf
    ensures |SignedText(v, false)| <= 21
    ensures buf[..|SignedText(v, false)| + 1] == SignedText(v, false) + [0]
  {
    var negative: nat := 0;
    if v < 0 {
      negative := 1;
      buf[0] := MINUS;
    }
    var m := Magnitude(v);
    Below64(m);
    var length := CountDigits(m);
    DecimalIsText(m);
    assert buf[..negative] == Sign(v);
    FillDecimal(buf, negative, length, m);
    buf[negative + length + 1] := 0;
    assert buf[..negative + length + 2] == buf[..negative] + buf[negative..negative + length + 1] + [0];
  }

  // ----- fixed-width hexadecimal -----

  /** v shifted right by i hexadecimal digits. */
  function Shifted(v: nat, i: nat): nat
    decreases i
  {
    if i == 0 then v else Shifted(v, i - 1) / 16
  }

  /** The last n hexadecimal digits of v, most significant first. */
  function FixedDigits(n: nat, v: nat): (ds: seq<nat>)
    ensures |ds| == n && AreDigits(16, ds)
    decreases n
  {
    if n == 0 then [] else FixedDigits(n - 1, v / 16) + [v % 16]
  }

  lemma {:induction false} ShiftedOnce(v: nat, i: nat)
    ensures Shifted(v / 16, i) == Shifted(v, i + 1)
    decreases i
  {
    if i != 0 {
      ShiftedOnce(v, i - 1);
    }
  }

  lemma {:induction false} FixedDigitAt(n: nat, v: nat, i: nat)
    requires i < n
    ensures FixedDigits(n, v)[n - 1 - i] == Shifted(v, i) % 16
    decreases n
  {
    if i > 0 {
      FixedDigitAt(n - 1, v / 16, i - 1);
      ShiftedOnce(v, i - 1);
    }
  }

  lemma {:induction false} FixedValue(n: nat, v: nat)
    requires v < Pow(16, n)
    ensures Value(16, 0, FixedDigits(n, v)) == v
    decreases n
  {
    if n != 0 {
      FixedValue(n - 1, v / 16);
      ValueAppend(16, 0, FixedDigits(n - 1, v / 16), v % 16);
    }
  }

  /** All sixteen hexadecimal digits of v. */
  function HexText(v: nat): seq<Char16> {
    Chars(FixedDigits(16, v))
  }

  method StoreHexDigit(buf: array<Char16>, i: nat, v: nat, ghost text: seq<Char16>)
    requires i < 16 && buf.Length == 128 && text == HexText(v) && buf[16 - i..16] == text[16 - i..]
    modifies buf
    ensures buf[15 - i..16] == text[15 - i..]
  {
    FixedDigitAt(16, v, i);
    CharsAt(FixedDigits(16, v), 15 - i);
    StoreBefore(buf, 15 - i, 16, DigitChar(Shifted(v, i) % 16));
    assert text[15 - i..] == [text[15 - i]] + text[16 - i..];
  }

  method U64ToHstr(v: nat, buf: array<Char16>)
    requires v < TWO64 && buf.Length == 128
    modifies buf
    ensures buf[..17] == HexText(v) + [0]
  {
    ghost var text := HexText(v);
    for i := 0 to 16
      invariant buf[16 - i..16] == text[16 - i..]
    {
      StoreHexDigit(buf, i, v, text);
    }
    buf[16] := 0;
    assert buf[..16] == buf[0..16] == text;
    assert buf[..17] == buf[..16] + [buf[16]];
  }

  // ----- dbg_atol -----

  /** The value kept by a 64-bit signed variable. */
  function Signed64(x: int): (r: int)
    ensures -TWO63 <= r < TWO63 && (-TWO63 <= x < TWO63 ==> r == x)
  {
    var m := Mod64(x);
    if m < TWO63 then m else m - TWO64
  }

  function SkipSpaces(s: seq<Char16>): seq<Char16> {
    if |s| > 0 && IsSpace(s[0]) then SkipSpaces(s[1..]) else s
  }

  predicate Negative(t: seq<Char16>) {
    |t| > 0 && t[0] == MINUS
  }

  function SkipSign(t: seq<Char16>): seq<Char16> {
    if |t| > 0 && (t[0] == MINUS || t[0] == PLUS) then t[1..] else t
  }

  predicate Hexadecimal(t: seq<Char16>) {
    |t| > 1 && t[0] == ZERO && (t[1] == LOWER_X || t[1] == UPPER_X)
  }

  /** Sign, base and magnitude of the number a string starts with. */
  datatype Literal = Literal(negative: bool, base: Base, magnitude: nat) {

    function Number(): int {
      if negative then -(magnitude as int) else magnitude
    }

    /** Whether the accumulation, negative in base ten and positive in base sixteen, and the final
        change of sign all stay within 64 signed bits. */
    predicate Fits() {
      magnitude < TWO63 || (magnitude == TWO63 && base == 10 && negative)
    }
  }

  function ReadLiteral(s: seq<Char16>): Literal {
    var t := SkipSpaces(s);
    var u := SkipSign(t);
    if Hexadecimal(u) then Literal(Negative(t), 16, Value(16, 0, LeadingDigits(16, u[2..])))
    else Literal(Negative(t), 10, Value(10, 0, LeadingDigits(10, u)))
  }

  lemma SignedMod(x: int)
    ensures Mod64(Signed64(x)) == Mod64(x)
  {
    ModMultiple(-1, Mod64(x));
  }

  lemma SignedStep(base: Base, x: int, d: int)
    ensures Signed64(Times(base, Signed64(x)) + d) == Signed64(Times(base, x) + d)
  {
    SignedMod(x);
    ModStep(base, Signed64(x), d);
    ModStep(base, x, d);
  }

  lemma SignedNegate(x: int)
    ensures Signed64(-Signed64(x)) == Signed64(-x)
  {
    var q, r := x / 0x1_0000_0000_0000_0000, x % 0x1_0000_0000_0000_0000;
    ModMultiple(-q, -r);
    ModMultiple(1, -r);
  }

  /** The leading digits of s from index i continue exact to total. */
  ghost predicate Continues(base: Base, s: seq<Char16>, i: nat, exact: nat, total: nat) {
    i <= |s| && Value(base, exact, LeadingDigits(base, s[i..])) == total
  }

  lemma ContinuesStep(base: Base, s: seq<Char16>, i: nat, exact: nat, total: nat)
    requires i < |s| && Continues(base, s, i, exact, total)
    ensures var d := DigitValue(base, s[i]);
            && (d < base ==> Continues(base, s, i + 1, Times(base, exact) + d, total))
            && (d >= base ==> exact == total)
  {
    assert s[i..][0] == s[i] && s[i..][1..] == s[i + 1..];
    if DigitValue(base, s[i]) < base {
      assert LeadingDigits(base, s[i..])[1..] == LeadingDigits(base, s[i + 1..]);
    }
  }

  method HexDigit(c: Char16) returns (found: bool, digit: nat)
    ensures found <==> DigitValue(16, c) < 16
    ensures found ==> digit == DigitValue(16, c)
  {
    CharacterClasses(c);
    found, digit := true, 0;
    if IsDigit(c) {
      digit := c - ZERO;
    } else if LOWER_A <= c <= LOWER_F {
      digit := c - LOWER_A + 10;
    } else if UPPER_A <= c <= UPPER_F {
      digit := c - UPPER_A + 10;
    } else {
      found := false;
    }
  }

  predicate InRange(x: int) {
    -TWO63 <= x < TWO63
  }

  lemma HexStep(n: int, exact: nat, digit: nat, overflow: bool)
    requires digit < 16 && n == Signed64(exact) && (overflow <==> exact >= TWO63)
    ensures Signed64(n * 16 + digit) == Signed64(16 * exact + digit)
    ensures overflow || !InRange(n * 16 + digit) <==> 16 * exact + digit >= TWO63
  {
    SignedStep(16, exact, digit);
  }

  /** The hexadecimal loop. */
  method AccumulateHex(s: seq<Char16>, start: nat, ghost total: nat) returns (n: int, ghost overflow: bool)
    requires ZeroTerminated(s) && start < |s| && Continues(16, s, start, 0, total)
    ensures n == Signed64(total) && (overflow <==> total >= TWO63)
  {
    var i: nat := start;
    n, overflow := 0, false;
    ghost var exact: nat := 0;
    while s[i] != 0
      invariant i < |s| && Continues(16, s, i, exact, total)
      invariant n == Signed64(exact) && (overflow <==> exact >= TWO63)
      decreases |s| - i
    {
      var found, digit := HexDigit(s[i]);
      if !found {
        break;
      }
      ContinuesStep(16, s, i, exact, total);
      HexStep(n, exact, digit, overflow);
      overflow := overflow || !InRange(n * 16 + digit);
      n := Signed64(n * 16 + digit);
      exact := 16 * exact + digit;
      i := i + 1;
    }
    ContinuesStep(16, s, i, exact, total);
  }

  lemma DecimalStepDown(n: int, exact: nat, digit: nat, overflow: bool)
    requires digit < 10 && n == Signed64(-(exact as int)) && (overflow <==> exact > TWO63)
    ensures Signed64(10 * n - digit) == Signed64(-(10 * exact + digit))
    ensures overflow || !InRange(10 * n - digit) <==> 10 * exact + digit > TWO63
  {
    SignedStep(10, -(exact as int), -(digit as int));
  }

  /** The decimal loop, which accumulates a negative number. */
  method AccumulateDecimal(s: seq<Char16>, start: nat, ghost total: nat) returns (n: int, ghost overflow: bool)
    requires ZeroTerminated(s) && start < |s| && Continues(10, s, start, 0, total)
    ensures n == Signed64(-(total as int)) && (overflow <==> total > TWO63)
  {
    var i: nat := start;
    n, overflow := 0, false;
    ghost var exact: nat := 0;
    CharacterClasses(s[i]);
    while IsDigit(s[i])
      invariant i < |s| && Continues(10, s, i, exact, total)
      invariant n == Signed64(-(exact as int)) && (overflow <==> exact > TWO63)
      decreases |s| - i
    {
      ContinuesStep(10, s, i, exact, total);
      CharacterClasses(s[i]);
      var digit: nat := s[i] - ZERO;
      DecimalStepDown(n, exact, digit, overflow);
      overflow := overflow || !InRange(10 * n - digit);
      n := Signed64(10 * n - digit);
      exact := 10 * exact + digit;
      i := i + 1;
    }
    CharacterClasses(s[i]);
    ContinuesStep(10, s, i, exact, total);
  }

  method SkipLeadingSpaces(s: seq<Char16>) returns (i: nat)
    requires ZeroTerminated(s)
    ensures i < |s| && s[i..] == SkipSpaces(s)
  {
    i := 0;
    assert s[0..] == s;
    while IsSpace(s[i])
      invariant i < |s| && SkipSpaces(s[i..]) == SkipSpaces(s)
      decreases |s| - i
    {
      CharacterClasses(s[i]);
      assert s[i..][1..] == s[i + 1..];
      i := i + 1;
    }
    CharacterClasses(s[i]);
  }

  lemma ChangeOfSign(literal: Literal, n: int)
    requires literal.base == 16 ==> n == Signed64(literal.magnitude)
    requires literal.base == 10 ==> n == Signed64(-(literal.magnitude as int))
    ensures var flips := literal.negative == (literal.base == 16);
            && Signed64(literal.Number()) == (if flips then Signed64(-n) else n)
            && (literal.base == 16 ==> (literal.Fits() <==> literal.magnitude < TWO63))
            && (literal.base == 10 ==> (literal.Fits() <==> literal.magnitude <= TWO63 && !(flips && n == -TWO63)))
  {
    SignedNegate(literal.magnitude);
    SignedNegate(-(literal.magnitude as int));
  }

  /** Returns the number a string starts with, as a signed 64-bit value; overflow tells whether a step left
      that range. */
  method DbgAtol(s: seq<Char16>) returns (r: int, ghost overflow: bool)
    requires ZeroTerminated(s)
    ensures r == Signed64(ReadLiteral(s).Number())
    ensures overflow <==> !ReadLiteral(s).Fits()
  {
    var i := SkipLeadingSpaces(s);
    var neg := s[i] == MINUS;
    ghost var t := s[i..];
    if s[i] == MINUS || s[i] == PLUS {
      assert s[i..][1..] == s[i + 1..];
      i := i + 1;
    }
    assert s[i..] == SkipSign(t);
    ghost var literal := ReadLiteral(s);
    var n;
    if s[i] == ZERO && (s[i + 1] == LOWER_X || s[i + 1] == UPPER_X) {
      assert s[i..][2..] == s[i + 2..];
      n, overflow := AccumulateHex(s, i + 2, literal.magnitude);
      ChangeOfSign(literal, n);
      r := if neg then Signed64(-n) else n;
    } else {
      n, overflow := AccumulateDecimal(s, i, literal.magnitude);
      ChangeOfSign(literal, n);
      overflow := overflow || (!neg && n == -TWO63);
      r := if neg then n else Signed64(-n);
    }
  }

  // ----- round trips -----

  /** dbg_atol reads back the text of every signed 64-bit value; s64_to_str prints all but the least. */
  lemma AtolUndoesS64ToStr(v: int)
    requires -TWO63 <= v < TWO63
    ensures ReadLiteral(SignedText(v, false) + [0]).Number() == v
    ensures ReadLiteral(SignedText(v, false) + [0]).Fits()
  {
    var m := Magnitude(v);
    DigitText(m);
    SignOfText(v);
    WrittenValue(10, m);
    LeadingDigitsOfChars(10, Written(10, m), [0]);
  }

  /** The text of a number starts with a digit and is not taken for hexadecimal. */
  lemma DigitText(m: nat)
    ensures |Text(10, m)| > 0 && ZERO <= Text(10, m)[0] <= NINE && !Hexadecimal(Text(10, m) + [0])
  {
    WrittenValue(10, m);
    var ds := Written(10, m);
    CharsAt(ds, 0);
    if |ds| > 1 {
      CharsAt(ds, 1);
    }
  }

  /** Reading past the spaces and the sign of a signed text leaves its digits. */
  lemma SignOfText(v: int)
    ensures var t := SkipSpaces(SignedText(v, false) + [0]);
            SkipSign(t) == Text(10, Magnitude(v)) + [0] && (Negative(t) <==> v < 0)
  {
    var digits, s := Text(10, Magnitude(v)), SignedText(v, false) + [0];
    DigitText(Magnitude(v));
    if v < 0 {
      assert s[0] == MINUS && s[1..] == digits + [0];
    } else {
      assert s == digits + [0] && s[0] == digits[0];
    }
    CharacterClasses(s[0]);
    assert SkipSpaces(s) == s;
  }

  lemma HexValue(v: nat)
    requires v < TWO64
    ensures Value(16, 0, FixedDigits(16, v)) == v
  {
    assert Pow(16, 4) == 0x1_0000;
    assert Pow(16, 8) == 0x1_0000_0000;
    assert Pow(16, 12) == 0x1_0000_0000_0000;
    assert Pow(16, 16) == TWO64;
    FixedValue(16, v);
  }

  lemma ReadHexadecimal(t: seq<Char16>)
    ensures ReadLiteral([ZERO, LOWER_X] + t) == Literal(false, 16, Value(16, 0, LeadingDigits(16, t)))
  {
    var s: seq<Char16> := [ZERO, LOWER_X] + t;
    CharacterClasses(ZERO);
    assert SkipSpaces(s) == s && SkipSign(s) == s && Hexadecimal(s);
    assert s[2..] == t;
  }

  /** Read back as hexadecimal, the sixteen digits give the value reinterpreted as signed: the value itself
      exactly below 2^63. */
  lemma AtolUndoesU64ToHstr(v: nat)
    requires v < TWO64
    ensures var l := ReadLiteral([ZERO, LOWER_X] + (HexText(v) + [0]));
            && l == Literal(false, 16, v)
            && (Signed64(l.Number()) == v <==> v < TWO63) && (l.Fits() <==> v < TWO63)
  {
    HexValue(v);
    LeadingDigitsOfChars(16, FixedDigits(16, v), [0]);
    ReadHexadecimal(HexText(v) + [0]);
  }
}
