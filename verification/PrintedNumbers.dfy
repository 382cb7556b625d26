/**
 The numbers that the formatted printer of bootloader/gnu-efi/lib/print.c shows, stated on its output text: which digits
 they are, and that the kernel debugger and the parsers of bootloader/gnu-efi/lib/str.c read them back.
 */
module PrintedNumbers {
  import opened Basics
  import opened Digits
  import opened PrintNumbers
  import opened PrintFormat
  import opened PrintLaws
  import opened PrintText
  import opened DebugNumbers

  function Short(c: Char16): Text16 {
    ['%' as int, c]
  }

  function Long(c: Char16): Text16 {
    ['%' as int, 'l' as int, c]
  }

  // ----- one directive -----

  /** The format prints the text and leaves the arguments. */
  predicate Prints(fmt: Text16, args: seq<Arg>, text: Text16, left: seq<Arg>) {
    Complete(fmt, args) && Output(fmt, args) == text && Render(fmt, args, 0, NoColours()).args == left
  }

  /** One format after the other prints one text after the other; the second takes the arguments the first leaves. */
  lemma PrintsJoined(f: Text16, g: Text16, args: seq<Arg>, a: Text16, mid: seq<Arg>, b: Text16, left: seq<Arg>)
    requires Prints(f, args, a, mid) && Prints(g, mid, b, left)
    ensures Prints(f + g, args, a + b, left)
  {
    JoinedOutput(f, g, args);
    RenderKeepsNoColour(f, args);
    RenderConcat(f, g, args, 0, NoColours());
  }

  lemma Shown(t: Text16, args: seq<Arg>, item: Item, text: Text16, left: seq<Arg>)
    requires Directive(t, NewItem(), args, Pen(0, 0), NoColours()) == Show([], item, left, Pen(0, 0), text)
    ensures Prints(['%' as int] + t, args, Expand(Field(item, text)), left)
  {
    var fmt := ['%' as int] + t;
    assert fmt[1..] == t;
    var cells := Ink(Field(item, text), 0);
    assert Render(fmt, args, 0, NoColours()) == Before(cells, Render([], left, 0, NoColours()));
    assert cells + [] == cells;
    PlainPaint(Expand(Field(item, text)), 0);
  }

  lemma ShownAs(fmt: Text16, t: Text16, args: seq<Arg>, item: Item, text: Text16, left: seq<Arg>, out: Text16)
    requires fmt == ['%' as int] + t && out == Expand(Field(item, text))
    requires Directive(t, NewItem(), args, Pen(0, 0), NoColours()) == Show([], item, left, Pen(0, 0), text)
    ensures Prints(fmt, args, out, left)
  {
    Shown(t, args, item, text, left);
  }

  lemma NumberLast(c: Char16, item: Item, x: Word64, rest: seq<Arg>)
    requires TakesNumber(c)
    ensures Directive([c], item, [Value(x)] + rest, Pen(0, 0), NoColours())
         == Show([], NumberItem(c, item), rest, Pen(0, 0), NumberText(c, item, x))
  {
    assert [c][1..] == [] && ([Value(x)] + rest)[1..] == rest;
    assert Next([c], item, [Value(x)] + rest, Pen(0, 0), NoColours())
        == Show([], NumberItem(c, item), rest, Pen(0, 0), NumberText(c, item, x));
  }

  lemma ModifierFirst(c: Char16, t: Text16, item: Item, args: seq<Arg>)
    requires Modifier(c)
    ensures Directive([c] + t, item, args, Pen(0, 0), NoColours()) == Directive(t, Modified(c, item), args, Pen(0, 0), NoColours())
  {
    assert ([c] + t)[1..] == t;
  }

  lemma ShortNumber(c: Char16, x: Word64, rest: seq<Arg>)
    requires TakesNumber(c)
    ensures Prints(['%' as int, c], [Value(x)] + rest, Expand(Field(NumberItem(c, NewItem()), NumberText(c, NewItem(), x))), rest)
  {
    NumberLast(c, NewItem(), x, rest);
    Shown([c], [Value(x)] + rest, NumberItem(c, NewItem()), NumberText(c, NewItem(), x), rest);
    assert ['%' as int] + [c] == ['%' as int, c];
  }

  lemma LongerNumber(c: Char16, x: Word64, rest: seq<Arg>)
    requires TakesNumber(c)
    ensures var long := NewItem().(long := true);
            Prints(['%' as int, 'l' as int, c], [Value(x)] + rest, Expand(Field(NumberItem(c, long), NumberText(c, long, x))), rest)
  {
    var long, args := NewItem().(long := true), [Value(x)] + rest;
    NumberLast(c, long, x, rest);
    ModifierFirst('l' as int, [c], NewItem(), args);
    var t := ['l' as int] + [c];
    Shown(t, args, NumberItem(c, long), NumberText(c, long, x), rest);
    assert ['%' as int] + t == ['%' as int, 'l' as int, c];
  }

  lemma SignedNoNewline(v: int)
    ensures Expand(SignedText(v, false)) == SignedText(v, false)
  {
    TextNoNewline(10, Magnitude(v));
    ExpandNoNewline(SignedText(v, false));
  }

  lemma HexNoNewline(v: nat)
    ensures Expand(Text(16, v)) == Text(16, v)
  {
    TextNoNewline(16, v);
    ExpandNoNewline(Text(16, v));
  }

  lemma NumberNoNewline(c: Char16, item: Item, x: Word64)
    requires c == 'd' as int || c == 'u' as int || c == 'x' as int
    requires !item.comma
    ensures Expand(NumberText(c, item, x)) == NumberText(c, item, x)
  {
    if c == 'd' as int {
      SignedNoNewline(SignedLow(x, item.long));
    } else if c == 'u' as int {
      SignedNoNewline(UnsignedLow(x, item.long));
    } else {
      HexNoNewline(Low(x, item.long));
    }
  }

  lemma PlainFieldShown(item: Item, text: Text16)
    requires item.fieldWidth == NO_FIELD_WIDTH && item.width == 0 && |text| <= 21 && Expand(text) == text
    ensures Expand(Field(item, text)) == text
  {
    PlainField(item, text);
  }

  /** Without a width, a decimal or hexadecimal directive prints the number's text. */
  lemma PlainNumber(c: Char16, item: Item, x: Word64)
    requires c == 'd' as int || c == 'u' as int || c == 'x' as int
    requires item == NewItem() || item == NewItem().(long := true)
    ensures Expand(Field(NumberItem(c, item), NumberText(c, item, x))) == NumberText(c, item, x)
  {
    NumberNoNewline(c, item, x);
    NumberLength(c, item, x);
    assert NumberItem(c, item) == item;
    PlainFieldShown(item, NumberText(c, item, x));
  }

  function AsSigned64(x: Word64): int {
    if x < TWO63 then x else x - TWO64
  }

  function AsSigned32(x: Word64): int {
    var low := x % 0x1_0000_0000;
    if low < 0x8000_0000 then low else low - 0x1_0000_0000
  }

  lemma LongD(x: Word64, rest: seq<Arg>)
    ensures Prints(Long('d' as int), [Value(x)] + rest, SignedText(AsSigned64(x), false), rest)
  {
    LongerNumber('d' as int, x, rest);
    PlainNumber('d' as int, NewItem().(long := true), x);
  }

  lemma LongU(x: Word64, rest: seq<Arg>)
    ensures Prints(Long('u' as int), [Value(x)] + rest, SignedText(AsSigned64(x), false), rest)
  {
    LongerNumber('u' as int, x, rest);
    PlainNumber('u' as int, NewItem().(long := true), x);
  }

  lemma LongX(x: Word64, rest: seq<Arg>)
    ensures Prints(Long('x' as int), [Value(x)] + rest, Text(16, x), rest)
  {
    LongerNumber('x' as int, x, rest);
    PlainNumber('x' as int, NewItem().(long := true), x);
  }

  lemma ShortD(x: Word64, rest: seq<Arg>)
    ensures Prints(Short('d' as int), [Value(x)] + rest, SignedText(AsSigned32(x), false), rest)
  {
    ShortNumber('d' as int, x, rest);
    PlainNumber('d' as int, NewItem(), x);
  }

  lemma ShortU(x: Word64, rest: seq<Arg>)
    ensures Prints(Short('u' as int), [Value(x)] + rest, SignedText(x % 0x1_0000_0000, false), rest)
  {
    ShortNumber('u' as int, x, rest);
    PlainNumber('u' as int, NewItem(), x);
  }

  lemma ShortX(x: Word64, rest: seq<Arg>)
    ensures Prints(Short('x' as int), [Value(x)] + rest, Text(16, x % 0x1_0000_0000), rest)
  {
    ShortNumber('x' as int, x, rest);
    PlainNumber('x' as int, NewItem(), x);
  }

  lemma SingleArg(x: Word64)
    ensures [Value(x)] + [] == [Value(x)]
  {}

  lemma LongXAlone(x: Word64)
    ensures Prints(Long('x' as int), [Value(x)], Text(16, x), [])
  {
    SingleArg(x);
    LongX(x, []);
  }

  lemma LongDAlone(x: Word64)
    requires x < TWO63
    ensures Prints(Long('d' as int), [Value(x)], Text(10, x), [])
  {
    SingleArg(x);
    LongD(x, []);
    assert SignedText(x, false) == Text(10, x);
  }

  lemma LongXPrints(x: Word64, text: Text16)
    requires text == Text(16, x)
    ensures Prints(Long('x' as int), [Value(x)], text, [])
  {
    LongXAlone(x);
  }

  lemma LongDPrints(x: Word64, text: Text16)
    requires x < TWO63 && text == Text(10, x)
    ensures Prints(Long('d' as int), [Value(x)], text, [])
  {
    LongDAlone(x);
  }

  lemma LongXIs(x: Word64, text: Text16)
    requires Prints(Long('x' as int), [Value(x)], text, [])
    ensures text == Text(16, x)
  {
    LongXAlone(x);
  }

  lemma LongDIs(x: Word64, text: Text16)
    requires x < TWO63 && Prints(Long('d' as int), [Value(x)], text, [])
    ensures text == Text(10, x)
  {
    LongDAlone(x);
  }

  lemma ShortDIs(x: Word64, text: Text16)
    requires Prints(Short('d' as int), [Value(x)], text, [])
    ensures text == SignedText(AsSigned32(x), false)
  {
    SingleArg(x);
    ShortD(x, []);
  }

  // ----- reading back -----

  /** The format is complete, and the debugger reads its output as v. */
  predicate ReadBackAs(fmt: Text16, args: seq<Arg>, v: int) {
    Complete(fmt, args) && ReadLiteral(Output(fmt, args) + [0]).Number() == v
  }

  lemma PrintedReadBack(fmt: Text16, args: seq<Arg>, v: int, left: seq<Arg>)
    requires -TWO63 <= v < TWO63 && Prints(fmt, args, SignedText(v, false), left)
    ensures ReadBackAs(fmt, args, v)
  {
    AtolUndoesS64ToStr(v);
  }

  lemma SignedHalf(v: int, x: Word64)
    requires -0x8000_0000 <= v < 0x8000_0000 && x % 0x1_0000_0000 == v % 0x1_0000_0000
    ensures AsSigned32(x) == v
  {}

  /** The debugger reads back every signed 32-bit number printed with "%d", whatever the upper half of the argument. */
  lemma DecimalReadBack(v: int, x: Word64)
    requires -0x8000_0000 <= v < 0x8000_0000 && x % 0x1_0000_0000 == v % 0x1_0000_0000
    ensures ReadBackAs(Short('d' as int), [Value(x)], v)
  {
    SignedHalf(v, x);
    SingleArg(x);
    ShortD(x, []);
    PrintedReadBack(Short('d' as int), [Value(x)], v, []);
  }

  /** It reads back every signed 64-bit number printed with "%ld". */
  lemma LongDecimalReadBack(v: int)
    requires -TWO63 <= v < TWO63
    ensures ReadBackAs(Long('d' as int), [Value(v % 0x1_0000_0000_0000_0000)], v)
  {
    var x := v % 0x1_0000_0000_0000_0000;
    assert AsSigned64(x) == v;
    SingleArg(x);
    LongD(x, []);
    PrintedReadBack(Long('d' as int), [Value(x)], v, []);
  }

  /** It reads back every unsigned 32-bit number printed with "%u". */
  lemma UnsignedReadBack(v: nat)
    requires v < 0x1_0000_0000
    ensures ReadBackAs(Short('u' as int), [Value(v)], v)
  {
    assert v % 0x1_0000_0000 == v;
    SingleArg(v);
    ShortU(v, []);
    PrintedReadBack(Short('u' as int), [Value(v)], v, []);
  }

  /** The format is complete, xtoi reads its output as v, and so does the debugger after "0x". */
  predicate HexReadBackAs(fmt: Text16, args: seq<Arg>, v: int) {
    && Complete(fmt, args) && Parsed(16, Output(fmt, args) + [0]) == v
    && ReadLiteral(['0' as int, 'x' as int] + (Output(fmt, args) + [0])).Number() == v
  }

  lemma HexPrintedReadBack(fmt: Text16, args: seq<Arg>, v: Word64, left: seq<Arg>)
    requires Prints(fmt, args, Text(16, v), left)
    ensures HexReadBackAs(fmt, args, v)
  {
    XtoiUndoesValueToHex(v);
    WrittenValue(16, v);
    LeadingDigitsOfChars(16, Written(16, v), [0]);
    ReadHexadecimal(Text(16, v) + [0]);
  }

  /** Both read back every unsigned 32-bit number printed with "%x". */
  lemma HexReadBack(v: nat)
    requires v < 0x1_0000_0000
    ensures HexReadBackAs(Short('x' as int), [Value(v)], v)
  {
    assert v % 0x1_0000_0000 == v;
    SingleArg(v);
    ShortX(v, []);
    HexPrintedReadBack(Short('x' as int), [Value(v)], v, []);
  }

  // ----- the digits -----

  lemma WrittenDigit(base: Base, d: nat)
    requires d < base
    ensures Text(base, d) == [DigitChar(d)]
  {
    if d > 0 {
      assert Quotient(base, d) == 0 && Remainder(base, d) == d && LowDigits(base, 0) == [];
      assert LowDigits(base, d) == [d] && Reverse([d]) == [d];
    }
    assert [d][1..] == [];
  }

  lemma WrittenGrows(base: Base, v: nat, d: nat, w: nat)
    requires v > 0 && d < base && w == Times(base, v) + d
    ensures Text(base, w) == Text(base, v) + Text(base, d)
  {
    assert Quotient(base, w) == v && Remainder(base, w) == d;
    assert LowDigits(base, w)[1..] == LowDigits(base, v);
    CharsAppend(Written(base, v), d);
    WrittenDigit(base, d);
  }

  lemma GrownText(base: Base, v: nat, d: nat, w: nat, upper: Text16, last: Text16, text: Text16)
    requires v > 0 && d < base && w == Times(base, v) + d
    requires upper == Text(base, v) && last == Text(base, d) && text == Text(base, w)
    ensures text == upper + last
  {
    WrittenGrows(base, v, d, w);
  }

  /** One hexadecimal digit. */
  lemma HexDigitPrinted(d: nat)
    requires d < 16
    ensures Prints(Long('x' as int), [Value(d)], ["0123456789ABCDEF"[d] as int], [])
  {
    SingleArg(d);
    LongX(d, []);
    WrittenDigit(16, d);
    DigitLetters(d);
  }

  lemma DigitLetters(d: nat)
    requires d < 16
    ensures DigitChar(d) == "0123456789ABCDEF"[d] as int
  {
    var all := "0123456789ABCDEF";
    assert all[0] == '0' && all[1] == '1' && all[2] == '2' && all[3] == '3' && all[4] == '4' && all[5] == '5';
    assert all[6] == '6' && all[7] == '7' && all[8] == '8' && all[9] == '9' && all[10] == 'A' && all[11] == 'B';
    assert all[12] == 'C' && all[13] == 'D' && all[14] == 'E' && all[15] == 'F';
  }

  /** A longer hexadecimal number is that of its upper digits, which are not all zero, followed by its last digit. */
  lemma HexPrinted(v: nat, d: nat, w: nat, upper: Text16, last: Text16)
    requires v > 0 && d < 16 && w == 16 * v + d < TWO64
    requires Prints(Long('x' as int), [Value(v)], upper, []) && Prints(Long('x' as int), [Value(d)], last, [])
    ensures Prints(Long('x' as int), [Value(w)], upper + last, [])
  {
    var text := Text(16, w);
    LongXIs(v, upper);
    LongXIs(d, last);
    GrownText(16, v, d, w, upper, last, text);
    LongXPrints(w, text);
  }

  /** One decimal digit. */
  lemma DecimalDigitPrinted(d: nat)
    requires d < 10
    ensures Prints(Long('d' as int), [Value(d)], ["0123456789"[d] as int], [])
  {
    SingleArg(d);
    LongD(d, []);
    WrittenDigit(10, d);
    DigitLetters(d);
    assert "0123456789ABCDEF"[..10] == "0123456789";
  }

  /** A longer decimal number is that of its upper digits, which are not all zero, followed by its last digit. */
  lemma DecimalPrinted(v: nat, d: nat, w: nat, upper: Text16, last: Text16)
    requires v > 0 && d < 10 && w == 10 * v + d < TWO63
    requires Prints(Long('d' as int), [Value(v)], upper, []) && Prints(Long('d' as int), [Value(d)], last, [])
    ensures Prints(Long('d' as int), [Value(w)], upper + last, [])
  {
    var text := Text(10, w);
    LongDIs(v, upper);
    LongDIs(d, last);
    GrownText(10, v, d, w, upper, last, text);
    LongDPrints(w, text);
  }

  /** A negative number is a minus sign and its magnitude. */
  lemma NegativePrinted(m: nat, text: Text16)
    requires 0 < m < TWO63 && Prints(Long('d' as int), [Value(m)], text, [])
    ensures Prints(Long('d' as int), [Value(TWO64 - m)], ['-' as int] + text, [])
  {
    SingleArg(m);
    SingleArg(TWO64 - m);
    LongD(m, []);
    LongD(TWO64 - m, []);
  }

  /** "%x" prints what "%lx" prints of the lower half. */
  lemma ShortHexPrinted(x: Word64, rest: seq<Arg>, text: Text16)
    requires Prints(Long('x' as int), [Value(x % 0x1_0000_0000)], text, [])
    ensures Prints(Short('x' as int), [Value(x)] + rest, text, rest)
  {
    SingleArg(x % 0x1_0000_0000);
    LongX(x % 0x1_0000_0000, []);
    ShortX(x, rest);
  }

  /** "%u" prints what "%ld" prints of the lower half. */
  lemma ShortUnsignedPrinted(x: Word64, rest: seq<Arg>, text: Text16)
    requires Prints(Long('d' as int), [Value(x % 0x1_0000_0000)], text, [])
    ensures Prints(Short('u' as int), [Value(x)] + rest, text, rest)
  {
    SingleArg(x % 0x1_0000_0000);
    LongD(x % 0x1_0000_0000, []);
    ShortU(x, rest);
  }

  /** "%d" prints what "%ld" prints of the lower half, extended by its sign. */
  lemma ShortSignedPrinted(x: Word64, extended: Word64, rest: seq<Arg>, text: Text16)
    requires var low := x % 0x1_0000_0000; extended == if low < 0x8000_0000 then low else low + 0xFFFF_FFFF_0000_0000
    requires Prints(Long('d' as int), [Value(extended)], text, [])
    ensures Prints(Short('d' as int), [Value(x)] + rest, text, rest)
  {
    assert AsSigned64(extended) == AsSigned32(x);
    SingleArg(extended);
    LongD(extended, []);
    ShortD(x, rest);
  }

  /** "%lu" prints what "%ld" prints. */
  lemma LongUnsignedPrinted(x: Word64, rest: seq<Arg>, text: Text16)
    requires Prints(Long('d' as int), [Value(x)], text, [])
    ensures Prints(Long('u' as int), [Value(x)] + rest, text, rest)
  {
    SingleArg(x);
    LongD(x, []);
    LongU(x, rest);
  }

  // ----- fixed width -----

  /** The text has the width, zeros in front, and ends with the digits. */
  ghost predicate ZeroFilled(text: Text16, width: nat, digits: Text16) {
    && |digits| <= width == |text| && text[width - |digits|..] == digits
    && forall i :: 0 <= i < width - |digits| ==> text[i] == '0' as int
  }

  lemma FixedField(item: Item, text: Text16)
    requires item.fieldWidth == NO_FIELD_WIDTH && item.pad == '0' as int && |text| <= item.width < NO_FIELD_WIDTH
    ensures ZeroFilled(Field(item, text), item.width, text)
  {
    FieldShape(item, text);
    var f := Field(item, text);
    assert f[item.width - |text|..] == f[item.width - |text|..item.width - |text| + |text|];
  }

  lemma FilledNoNewline(f: Text16, width: nat, v: nat)
    requires ZeroFilled(f, width, Text(16, v))
    ensures Expand(f) == f
  {
    var digits := Text(16, v);
    TextNoNewline(16, v);
    forall i | 0 <= i < |f| ensures f[i] != NEWLINE {
      if i >= width - |digits| {
        assert f[i] == digits[i - (width - |digits|)];
      }
    }
    ExpandNoNewline(f);
  }

  lemma HexLength(v: nat)
    ensures v < 0x1_0000_0000 ==> |Text(16, v)| <= 8
    ensures v < TWO64 ==> |Text(16, v)| <= 16
  {
    if v < 0x1_0000_0000 {
      assert Pow(16, 4) == 0x1_0000;
      assert Pow(16, 8) == 0x1_0000_0000;
      LowDigitsCount(16, v, 8);
    }
    if v < TWO64 {
      Below64(v);
    }
  }

  /** The format prints the digits with zeros in front of them, the width in all, and leaves the arguments. */
  ghost predicate PrintsFilled(fmt: Text16, args: seq<Arg>, width: nat, digits: Text16, left: seq<Arg>) {
    exists text :: Prints(fmt, args, text, left) && ZeroFilled(text, width, digits)
  }

  /** "%X" prints the digits of "%x" with zeros in front of them, eight characters in all. */
  lemma FixedPrinted(x: Word64, rest: seq<Arg>, digits: Text16)
    requires Prints(Short('x' as int), [Value(x)], digits, [])
    ensures PrintsFilled(Short('X' as int), [Value(x)] + rest, 8, digits, rest)
  {
    var item, low := NumberItem('X' as int, NewItem()), x % 0x1_0000_0000;
    SingleArg(x);
    ShortX(x, []);
    ShortNumber('X' as int, x, rest);
    HexLength(low);
    FixedField(item, Text(16, low));
    FilledNoNewline(Field(item, Text(16, low)), 8, low);
  }

  /** "%lX" prints the digits of "%lx" with zeros in front of them, sixteen characters in all. */
  lemma LongFixedPrinted(x: Word64, rest: seq<Arg>, digits: Text16)
    requires Prints(Long('x' as int), [Value(x)], digits, [])
    ensures PrintsFilled(Long('X' as int), [Value(x)] + rest, 16, digits, rest)
  {
    var item := NumberItem('X' as int, NewItem().(long := true));
    SingleArg(x);
    LongX(x, []);
    LongerNumber('X' as int, x, rest);
    HexLength(x);
    FixedField(item, Text(16, x));
    FilledNoNewline(Field(item, Text(16, x)), 16, x);
  }

  /** "%p" prints "0x" and what "%x" prints: the lower half, without zeros in front. */
  lemma PointerPrinted(x: Word64, rest: seq<Arg>, digits: Text16)
    requires Prints(Short('x' as int), [Value(x)], digits, [])
    ensures Prints(Short('p' as int), [Value(x)] + rest, ['0' as int, 'x' as int] + digits, rest)
  {
    var item, low := NumberItem('p' as int, NewItem()), x % 0x1_0000_0000;
    var text := ['0' as int, 'x' as int] + Text(16, low);
    SingleArg(x);
    ShortX(x, []);
    ShortNumber('p' as int, x, rest);
    HexLength(low);
    PlainField(item, text);
    TextNoNewline(16, low);
    ExpandNoNewline(text);
  }
}
