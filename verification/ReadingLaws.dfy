/**
 How numbers are read, character by character: xtoi and Atoi of bootloader/gnu-efi/lib/str.c, and dbg_atol of
 arch/x86_64/debug/debug.c.
 */
module ReadingLaws {
  import opened Basics
  import opened Digits
  import opened PrintNumbers
  import opened DebugNumbers

  /** The digit that a character is; decimal digits have codes from 48 on, the others 65 to 70 or 97 to 102. */
  predicate Stands(base: Base, c: Char16, d: nat) {
    || (48 <= c <= 57 && d == c - 48)
    || (base == 16 && 65 <= c <= 70 && d == c - 55)
    || (base == 16 && 97 <= c <= 102 && d == c - 87)
  }

  predicate IsDigitOf(base: Base, c: Char16) {
    48 <= c <= 57 || (base == 16 && (65 <= c <= 70 || 97 <= c <= 102))
  }

  ghost predicate AllDigits(base: Base, s: seq<Char16>) {
    forall k :: 0 <= k < |s| ==> IsDigitOf(base, s[k])
  }

  lemma StandsIsValue(base: Base, c: Char16)
    ensures IsDigitOf(base, c) ==> Stands(base, c, DigitValue(base, c)) && DigitValue(base, c) < base
    ensures !IsDigitOf(base, c) ==> DigitValue(base, c) >= base
  {}

  /** The digits of a text, as far as they go. */
  lemma {:induction false} LeadingOf(base: Base, s: seq<Char16>, after: seq<Char16>)
    requires AllDigits(base, s)
    ensures LeadingDigits(base, s + after) == LeadingDigits(base, s) + LeadingDigits(base, after)
    decreases |s|
  {
    if |s| == 0 {
      assert s + after == after;
    } else {
      StandsIsValue(base, s[0]);
      assert (s + after)[1..] == s[1..] + after;
      LeadingOf(base, s[1..], after);
    }
  }

  lemma LeadingStops(base: Base, s: seq<Char16>, after: seq<Char16>)
    requires AllDigits(base, s) && (|after| > 0 ==> !IsDigitOf(base, after[0]))
    ensures LeadingDigits(base, s + after) == LeadingDigits(base, s)
  {
    LeadingOf(base, s, after);
    if |after| > 0 {
      StandsIsValue(base, after[0]);
    }
  }

  /** The number that a text of digits is. */
  function Meant(base: Base, s: seq<Char16>): nat {
    Digits.Value(base, 0, LeadingDigits(base, s))
  }

  /** No digits are zero, and one more digit is worth as much as a unit of the digits before it is worth the base. */
  lemma MeantGrows(base: Base, s: seq<Char16>, c: Char16, d: nat)
    requires AllDigits(base, s) && Stands(base, c, d)
    ensures Meant(base, []) == 0 && Meant(base, s + [c]) == base * Meant(base, s) + d
  {
    StandsIsValue(base, c);
    LeadingOf(base, s, [c]);
    assert [c][1..] == [];
    assert LeadingDigits(base, [c]) == [d];
    ValueAppend(base, 0, LeadingDigits(base, s), d);
  }

  // ----- xtoi and Atoi -----

  /** A blank in front makes no difference. */
  lemma BlankSkipped(base: Base, s: seq<Char16>)
    ensures Parsed(base, [32] + s) == Parsed(base, s)
  {
    assert ([32] + s)[1..] == s;
  }

  /** Digits are read up to the first other character, in 64 bits. */
  lemma DigitsParsed(base: Base, s: seq<Char16>, after: seq<Char16>)
    requires AllDigits(base, s) && (|after| > 0 ==> !IsDigitOf(base, after[0]))
    requires |s| > 0 || (|after| > 0 && after[0] != 32)
    ensures Parsed(base, s + after) == Meant(base, s) % 0x1_0000_0000_0000_0000
  {
    LeadingStops(base, s, after);
    var t := s + after;
    assert t[0] != 32;
    assert SkipBlanks(t) == t;
  }

  // ----- dbg_atol -----

  /** A blank or one of the codes 9 to 13 in front makes no difference. */
  lemma SpaceSkipped(c: Char16, s: seq<Char16>)
    requires c == 32 || 9 <= c <= 13
    ensures ReadLiteral([c] + s) == ReadLiteral(s)
  {
    CharacterClasses(c);
    assert ([c] + s)[1..] == s;
  }

  lemma DecimalUnsigned(s: seq<Char16>, after: seq<Char16>)
    requires AllDigits(10, s) && (|after| > 0 ==> !IsDigitOf(10, after[0]) && after[0] != 88 && after[0] != 120)
    ensures LeadingDigits(10, s + after) == LeadingDigits(10, s) && !Hexadecimal(s + after)
  {
    LeadingStops(10, s, after);
  }

  lemma SkipSpacesStops(t: seq<Char16>)
    requires |t| > 0 ==> t[0] != 32 && !(9 <= t[0] <= 13)
    ensures SkipSpaces(t) == t
  {
    if |t| > 0 {
      CharacterClasses(t[0]);
    }
  }

  /** Decimal digits are read up to the first other character. */
  lemma DecimalRead(s: seq<Char16>, after: seq<Char16>)
    requires AllDigits(10, s) && |s| > 0 && (|after| > 0 ==> !IsDigitOf(10, after[0]) && after[0] != 88 && after[0] != 120)
    ensures ReadLiteral(s + after) == Literal(false, 10, Meant(10, s))
  {
    DecimalUnsigned(s, after);
    var t := s + after;
    assert t[0] == s[0];
    SkipSpacesStops(t);
    assert SkipSign(t) == t;
  }

  /** After "0x" or "0X" hexadecimal digits are. */
  lemma HexadecimalRead(x: Char16, s: seq<Char16>, after: seq<Char16>)
    requires (x == 88 || x == 120) && AllDigits(16, s) && (|after| > 0 ==> !IsDigitOf(16, after[0]))
    ensures ReadLiteral([48, x] + (s + after)) == Literal(false, 16, Meant(16, s))
  {
    LeadingStops(16, s, after);
    var t := [48, x] + (s + after);
    SkipSpacesStops(t);
    assert SkipSign(t) == t && Hexadecimal(t) && t[2..] == s + after;
  }

  /** A minus sign changes the sign of the number behind it, and a plus sign nothing. */
  lemma SignRead(sign: Char16, t: seq<Char16>)
    requires (sign == 45 || sign == 43) && |t| > 0 && IsDigitOf(10, t[0])
    ensures ReadLiteral([sign] + t) == ReadLiteral(t).(negative := sign == 45)
  {
    var s := [sign] + t;
    SkipSpacesStops(s);
    SkipSpacesStops(t);
    assert SkipSign(s) == t && SkipSign(t) == t;
  }
}
