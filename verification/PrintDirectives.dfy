/**
 The directives of bootloader/gnu-efi/lib/print.c, one by one, stated on what a format prints: texts, characters, widths,
 fields, commas, colours and newlines.  What a format prints after another is what PrintsJoined says.
 */
module PrintDirectives {
  import opened Basics
  import opened Digits
  import opened PrintNumbers
  import opened PrintFormat
  import opened PrintLaws
  import opened PrintText
  import opened PrintedNumbers

  // ----- newlines -----

  /** A newline is preceded by a carriage return; any other character stands for itself. */
  lemma CharactersPrinted(c: Char16)
    requires c != 0x25
    ensures Prints([c], [], if c == 0x0A then [0x0D, 0x0A] else [c], [])
  {
    ExpandOne(c);
    var cells := Ink([c], 0);
    assert [c][1..] == [];
    assert Render([c], [], 0, NoColours()) == Before(cells, Render([], [], 0, NoColours()));
    assert cells + [] == cells;
    PlainPaint(Expand([c]), 0);
  }

  lemma ExpandOne(c: Char16)
    ensures Expand([c]) == if c == 0x0A then [0x0D, 0x0A] else [c]
  {
    assert [c][1..] == [];
  }

  // ----- directives without modifiers -----

  lemma EndsShown(c: Char16, args: seq<Arg>, text: Text16, left: seq<Arg>)
    requires Ends(c, NewItem(), args, text, left) && |text| < NO_FIELD_WIDTH
    ensures Prints(Short(c), args, Expand(text), left)
  {
    PlainField(NewItem(), text);
    assert ['%' as int] + [c] == Short(c);
    ShownAs(Short(c), [c], args, NewItem(), text, left, Expand(text));
  }

  /** The last letter of a directive ends it with a field of this text. */
  ghost predicate Ends(c: Char16, item: Item, args: seq<Arg>, text: Text16, left: seq<Arg>) {
    Directive([c], item, args, Pen(0, 0), NoColours()) == Show([], item, left, Pen(0, 0), text)
  }

  lemma StringEnds(c: Char16, item: Item, s: Text16, after: Text16, rest: seq<Arg>)
    requires (c == 's' as int || c == 'a' as int) && NoNul(s)
    ensures Ends(c, item, [String(s + [0] + after)] + rest, s, rest)
  {
    var a := String(s + [0] + after);
    var args := [a] + rest;
    assert [c][1..] == [] && args[1..] == rest;
    UpToNulIs(a.s, |s|);
    assert a.s[..|s|] == s;
    assert Next([c], item, args, Pen(0, 0), NoColours()) == Show([], item, rest, Pen(0, 0), s);
  }

  /** "%s" and "%a" print their argument up to its terminator. */
  lemma StringPrinted(c: Char16, s: Text16, after: Text16, rest: seq<Arg>)
    requires (c == 's' as int || c == 'a' as int) && NoNul(s) && |s| < NO_FIELD_WIDTH
    ensures Prints(Short(c), [String(s + [0] + after)] + rest, Expand(s), rest)
  {
    StringEnds(c, NewItem(), s, after, rest);
    EndsShown(c, [String(s + [0] + after)] + rest, s, rest);
  }

  /** For a null pointer they print "(null)". */
  lemma NullPrinted(c: Char16, rest: seq<Arg>)
    requires c == 's' as int || c == 'a' as int
    ensures Prints(Short(c), [NullString] + rest, ['(' as int, 'n' as int, 'u' as int, 'l' as int, 'l' as int, ')' as int], rest)
  {
    var args := [NullString] + rest;
    assert [c][1..] == [] && args[1..] == rest;
    assert Next([c], NewItem(), args, Pen(0, 0), NoColours()) == Show([], NewItem(), rest, Pen(0, 0), Null());
    EndsShown(c, args, Null(), rest);
    ExpandNoNewline(Null());
  }

  /** "%D" prints at most 99 characters of a device path's text. */
  lemma DevicePathPrinted(s: Text16, after: Text16, rest: seq<Arg>)
    requires NoNul(s) && |s| < NO_FIELD_WIDTH
    ensures Prints(Short('D' as int), [String(s + [0] + after)] + rest, Expand(if |s| <= 99 then s else s[..99]), rest)
  {
    CutText(s, after);
    DevicePathShown(s + [0] + after, if |s| <= 99 then s else s[..99], rest);
  }

  lemma DevicePathShown(s: Text16, shown: Text16, rest: seq<Arg>)
    requires shown == UpToNul(Truncated(s, 99)) && |shown| < NO_FIELD_WIDTH
    ensures Prints(Short('D' as int), [String(s)] + rest, Expand(shown), rest)
  {
    DevicePathEnds(s, shown, [String(s)] + rest, rest);
    EndsShown('D' as int, [String(s)] + rest, shown, rest);
  }

  lemma DevicePathEnds(s: Text16, shown: Text16, args: seq<Arg>, rest: seq<Arg>)
    requires shown == UpToNul(Truncated(s, 99)) && args == [String(s)] + rest
    ensures Ends('D' as int, NewItem(), args, shown, rest)
  {
    assert ['D' as int][1..] == [] && args[1..] == rest;
    assert StringText('D' as int, args[0]) == shown;
    assert Next(['D' as int], NewItem(), args, Pen(0, 0), NoColours()) == Show([], NewItem(), rest, Pen(0, 0), shown);
  }

  lemma CutText(s: Text16, after: Text16)
    requires NoNul(s)
    ensures UpToNul(Truncated(s + [0] + after, 99)) == if |s| <= 99 then s else s[..99]
  {
    var text := s + [0] + after;
    var cut := Truncated(text, 99);
    if |s| < 99 {
      UpToNulIs(cut, |s|);
      assert cut[..|s|] == s;
    } else {
      assert cut == s[..99];
      assert NoNul(cut);
      assert UpToNul(cut) == cut;
    }
  }

  /** "%c" prints the character that its argument's lower sixteen bits are, and nothing for 0. */
  lemma CharacterPrinted(x: Word64, rest: seq<Arg>)
    ensures var c := x % 0x1_0000;
            Prints(Short('c' as int), [Value(x)] + rest, if c == 0 then [] else if c == 0x0A then [0x0D, 0x0A] else [c], rest)
  {
    var c, args := x % 0x1_0000, [Value(x)] + rest;
    var t: Text16, text: Text16 := ['c' as int], if c == 0 then [] else [c];
    assert t[1..] == [] && args[1..] == rest;
    assert UpToNul([c]) == text;
    assert Next(t, NewItem(), args, Pen(0, 0), NoColours()) == Show([], NewItem(), rest, Pen(0, 0), text);
    EndsShown('c' as int, args, text, rest);
    ExpandOne(c);
  }

  /** The characters that mean something in a directive. */
  const KNOWN: set<int> := {
    ',' as int, '-' as int, '.' as int, '*' as int, '%' as int,
    '0' as int, '1' as int, '2' as int, '3' as int, '4' as int, '5' as int, '6' as int, '7' as int, '8' as int, '9' as int,
    'a' as int, 'c' as int, 'd' as int, 'e' as int, 'f' as int, 'g' as int, 'h' as int, 'l' as int, 'n' as int, 'p' as int,
    'r' as int, 's' as int, 't' as int, 'u' as int, 'x' as int,
    'D' as int, 'E' as int, 'H' as int, 'N' as int, 'X' as int}

  /** "%%" prints a percent sign, and any unknown letter a question mark. */
  lemma OthersPrinted(c: Char16, args: seq<Arg>)
    requires c == '%' as int || c !in KNOWN
    ensures Prints(Short(c), args, if c == '%' as int then ['%' as int] else ['?' as int], args)
  {
    var text: Text16 := if c == '%' as int then ['%' as int] else ['?' as int];
    assert [c][1..] == [];
    NotKnown(c);
    assert Next([c], NewItem(), args, Pen(0, 0), NoColours()) == Show([], NewItem(), args, Pen(0, 0), text);
    EndsShown(c, args, text, args);
    ExpandNoNewline(text);
  }

  lemma NotKnown(c: Char16)
    requires c == '%' as int || c !in KNOWN
    ensures !StartsNumber(c) && !Modifier(c) && !Colour(c) && c != '*' as int && c != 'c' as int && !TakesNumber(c) && !TakesText(c)
  {}

  // ----- widths -----

  function Percent(t: Text16): Text16 {
    ['%' as int] + t
  }

  /** A width or field width and the letter after it. */
  function Sized(w: nat, c: Char16): Text16 {
    Text(10, w) + [c]
  }

  function ZeroSized(w: nat): Text16 {
    ['0' as int] + Sized(w, 'd' as int)
  }

  function Starred(): Text16 {
    ['*' as int, 's' as int]
  }

  function Commas(): Text16 {
    [',' as int, 'd' as int]
  }

  function DotSized(l: nat): Text16 {
    ['.' as int] + Sized(l, 's' as int)
  }

  function DashDotSized(l: nat): Text16 {
    ['-' as int] + DotSized(l)
  }


  /** Leading digits are read as the number they are, up to the first other character. */
  lemma {:induction false} NumberRead(acc: Word64, ds: seq<nat>, t: Text16)
    requires AreDigits(10, ds) && Digits.Value(10, acc, ds) < TWO64 && (|t| > 0 ==> !Digit(t[0]))
    ensures Number(acc, Chars(ds) + t) == Digits.Value(10, acc, ds) && AfterDigits(Chars(ds) + t) == t
    decreases |ds|
  {
    if |ds| == 0 {
      assert Chars(ds) + t == t;
    } else {
      var next, rest := 10 * acc + ds[0], ds[1..];
      ValueGrows(next, rest);
      NumberRead(next, rest, t);
      DigitRead(acc, ds[0], Chars(rest) + t);
      FirstChar(ds, t);
    }
  }

  lemma FirstChar(ds: seq<nat>, t: Text16)
    requires |ds| > 0 && ds[0] < 10
    ensures Chars(ds) + t == [ZERO + ds[0]] + (Chars(ds[1..]) + t)
  {
    ConcatAssociative([ZERO + ds[0]], Chars(ds[1..]), t);
  }

  lemma DigitRead(acc: Word64, d: nat, t: Text16)
    requires d < 10 && 10 * acc + d < TWO64
    ensures Number(acc, [ZERO + d] + t) == Number(10 * acc + d, t) && AfterDigits([ZERO + d] + t) == AfterDigits(t)
  {
    assert ([ZERO + d] + t)[1..] == t;
  }

  lemma {:induction false} ValueGrows(acc: nat, ds: seq<nat>)
    ensures Digits.Value(10, acc, ds) >= acc
    decreases |ds|
  {
    if |ds| > 0 {
      ValueGrows(10 * acc + ds[0], ds[1..]);
    }
  }

  lemma {:induction false} FirstDigit(v: nat)
    requires v > 0
    ensures '1' as int <= Text(10, v)[0] <= '9' as int
  {
    if v < 10 {
      WrittenDigit(10, v);
    } else {
      FirstDigit(v / 10);
      WrittenGrows(10, v / 10, v % 10, v);
    }
  }

  lemma WidthDirective(w: Word64, c: Char16, item: Item, args: seq<Arg>)
    requires w > 0 && !Digit(c)
    ensures Directive(Sized(w, c), item, args, Pen(0, 0), NoColours())
         == Directive([c], WithWidth(item, w), args, Pen(0, 0), NoColours())
  {
    FirstDigit(w);
    WrittenValue(10, w);
    NumberRead(0, Written(10, w), [c]);
    var t := Sized(w, c);
    assert Next(t, item, args, Pen(0, 0), NoColours()) == More([c], WithWidth(item, w), args, Pen(0, 0));
  }

  lemma ExpandRepeat(c: Char16, n: int)
    requires c != NEWLINE
    ensures Expand(Repeat(c, n)) == Repeat(c, n)
  {
    RepeatAll(c, n);
    ExpandNoNewline(Repeat(c, n));
  }

  lemma WidthLaid(item: Item, text: Text16, padding: Text16)
    requires item.fieldWidth == NO_FIELD_WIDTH && |text| < NO_FIELD_WIDTH && padding == Repeat(item.pad, item.width - |text|)
    ensures Field(item, text) == padding + text
  {
    assert Truncated(text, item.fieldWidth) == text;
    assert Field(item, text) == Laid(item.padBefore, item.pad, text, Max(item.width, |text|), |text|);
    assert Repeat(item.pad, Max(item.width, |text|) - |text|) == padding;
    UnfilledLaid(item.padBefore, item.pad, text, Max(item.width, |text|), |text|);
  }

  lemma UnfilledLaid(before: bool, pad: Char16, shown: Text16, width: nat, fieldWidth: nat)
    requires fieldWidth <= width
    ensures Laid(before, pad, shown, width, fieldWidth) == Repeat(pad, width - |shown|) + shown
  {
    var padded := Repeat(pad, width - |shown|) + shown;
    assert Repeat(SPACE, fieldWidth - width) == [] && [] + padded == padded && padded + [] == padded;
  }

  /** What a width does: enough of the pad character in front. */
  lemma WidthField(item: Item, text: Text16)
    requires item.fieldWidth == NO_FIELD_WIDTH && |text| < NO_FIELD_WIDTH && item.pad != NEWLINE
    ensures Expand(Field(item, text)) == Repeat(item.pad, item.width - |text|) + Expand(text)
  {
    var padding := Repeat(item.pad, item.width - |text|);
    WidthLaid(item, text, padding);
    ExpandConcat(padding, text);
    ExpandRepeat(item.pad, item.width - |text|);
  }

  lemma WidthShown(w: Word64, c: Char16, args: seq<Arg>, text: Text16, left: seq<Arg>)
    requires w > 0 && !Digit(c) && Ends(c, NewItem().(width := w), args, text, left) && |text| < NO_FIELD_WIDTH
    ensures Prints(Percent(Sized(w, c)), args, Repeat(' ' as int, w - |text|) + Expand(text), left)
  {
    var item := NewItem().(width := w);
    WidthDirective(w, c, NewItem(), args);
    WidthField(item, text);
    ShownAs(Percent(Sized(w, c)), Sized(w, c), args, item, text, left, Repeat(' ' as int, w - |text|) + Expand(text));
  }

  /** A width puts blanks in front of a shorter text. */
  lemma WidthPrinted(w: Word64, s: Text16, after: Text16, rest: seq<Arg>)
    requires w > 0 && NoNul(s) && |s| < NO_FIELD_WIDTH
    ensures Prints(Percent(Sized(w, 's' as int)), [String(s + [0] + after)] + rest, Repeat(' ' as int, w - |s|) + Expand(s), rest)
  {
    StringEnds('s' as int, NewItem().(width := w), s, after, rest);
    WidthShown(w, 's' as int, [String(s + [0] + after)] + rest, s, rest);
  }

  lemma StarDirective(w: Word64, a: Arg, rest: seq<Arg>)
    ensures Directive(Starred(), NewItem(), [Value(w), a] + rest, Pen(0, 0), NoColours())
         == Directive(['s' as int], NewItem().(width := w), [a] + rest, Pen(0, 0), NoColours())
  {
    var t, args := Starred(), [Value(w), a] + rest;
    assert t[1..] == ['s' as int] && args[1..] == [a] + rest;
    assert Next(t, NewItem(), args, Pen(0, 0), NoColours()) == More(['s' as int], NewItem().(width := w), [a] + rest, Pen(0, 0));
  }

  lemma StarShown(w: Word64, s: Text16, after: Text16, rest: seq<Arg>, out: Text16)
    requires NoNul(s) && out == Expand(Field(NewItem().(width := w), s))
    ensures Prints(Percent(Starred()), [Value(w), String(s + [0] + after)] + rest, out, rest)
  {
    var a := String(s + [0] + after);
    StringEnds('s' as int, NewItem().(width := w), s, after, rest);
    StarDirective(w, a, rest);
    ShownAs(Percent(Starred()), Starred(), [Value(w), a] + rest, NewItem().(width := w), s, rest, out);
  }

  /** A star takes the width from the arguments. */
  lemma StarPrinted(w: Word64, s: Text16, after: Text16, rest: seq<Arg>)
    requires NoNul(s) && |s| < NO_FIELD_WIDTH
    ensures Prints(Percent(Starred()), [Value(w), String(s + [0] + after)] + rest, Repeat(' ' as int, w - |s|) + Expand(s), rest)
  {
    WidthField(NewItem().(width := w), s);
    StarShown(w, s, after, rest, Repeat(' ' as int, w - |s|) + Expand(s));
  }

  /** A zero before the width of a number puts zeros in front of it. */
  lemma ZeroPadPrinted(w: Word64, x: Word64, rest: seq<Arg>, text: Text16)
    requires w > 0 && Prints(Short('d' as int), [Value(x)], text, [])
    ensures Prints(Percent(ZeroSized(w)), [Value(x)] + rest, Repeat('0' as int, w - |text|) + text, rest)
  {
    ShortDIs(x, text);
    PaddedDecimal(w, x, rest, text);
  }

  lemma PaddedText(item: Item, v: int)
    requires -TWO63 <= v < TWO63 && item.fieldWidth == NO_FIELD_WIDTH && item.pad != NEWLINE
    ensures var text := SignedText(v, false); Expand(Field(item, text)) == Repeat(item.pad, item.width - |text|) + text
  {
    SignedTextLength(v);
    WidthField(item, SignedText(v, false));
    SignedNoNewline(v);
  }

  lemma PaddedDecimal(w: Word64, x: Word64, rest: seq<Arg>, text: Text16)
    requires w > 0 && text == SignedText(SignedLow(x, false), false)
    ensures Prints(Percent(ZeroSized(w)), [Value(x)] + rest, Repeat('0' as int, w - |text|) + text, rest)
  {
    var item := NewItem().(pad := '0' as int, width := w);
    PaddedText(item, SignedLow(x, false));
    DecimalEnds(item, x, rest, text);
    PaddedShown(w, [Value(x)] + rest, text, rest, Repeat('0' as int, w - |text|) + text);
  }

  lemma DecimalEnds(item: Item, x: Word64, rest: seq<Arg>, text: Text16)
    requires text == SignedText(SignedLow(x, false), item.comma) && !item.long
    ensures Ends('d' as int, item, [Value(x)] + rest, text, rest)
  {
    NumberLast('d' as int, item, x, rest);
  }

  lemma PaddedShown(w: Word64, args: seq<Arg>, text: Text16, left: seq<Arg>, out: Text16)
    requires var item := NewItem().(pad := '0' as int, width := w);
             w > 0 && Ends('d' as int, item, args, text, left) && out == Expand(Field(item, text))
    ensures Prints(Percent(ZeroSized(w)), args, out, left)
  {
    var zero := NewItem().(pad := '0' as int);
    WidthDirective(w, 'd' as int, zero, args);
    ModifierFirst('0' as int, Sized(w, 'd' as int), NewItem(), args);
    ShownAs(Percent(ZeroSized(w)), ZeroSized(w), args, zero.(width := w), text, left, out);
  }

  // ----- fields -----

  lemma FieldDirective(l: Word64, before: Item, args: seq<Arg>)
    requires l > 0
    ensures Directive(DotSized(l), before, args, Pen(0, 0), NoColours())
         == Directive(['s' as int], before.(parsesField := true, fieldWidth := l), args, Pen(0, 0), NoColours())
  {
    ModifierFirst('.' as int, Sized(l, 's' as int), before, args);
    WidthDirective(l, 's' as int, before.(parsesField := true), args);
  }

  lemma FieldLaid(item: Item, text: Text16, shown: Text16, blanks: Text16)
    requires item.width == 0 && item.fieldWidth < NO_FIELD_WIDTH
    requires shown == (if |text| <= item.fieldWidth then text else text[..item.fieldWidth]) && blanks == Repeat(SPACE, item.fieldWidth - |text|)
    ensures Field(item, text) == if item.padBefore then blanks + shown else shown + blanks
  {
    var l := item.fieldWidth;
    assert Truncated(text, l) == shown && Max(item.width, |shown|) == |shown|;
    assert Field(item, text) == Laid(item.padBefore, item.pad, shown, |shown|, l);
    assert Repeat(SPACE, l - |shown|) == blanks;
    UnpaddedLaid(item.padBefore, item.pad, shown, l);
  }

  lemma UnpaddedLaid(before: bool, pad: Char16, shown: Text16, l: nat)
    ensures var blanks := Repeat(SPACE, l - |shown|);
            Laid(before, pad, shown, |shown|, l) == if before then blanks + shown else shown + blanks
  {
    assert Repeat(pad, |shown| - |shown|) == [] && [] + shown == shown;
  }

  lemma BlanksAround(shown: Text16, blanks: Text16, n: int)
    requires blanks == Repeat(SPACE, n)
    ensures Expand(blanks + shown) == blanks + Expand(shown) && Expand(shown + blanks) == Expand(shown) + blanks
  {
    ExpandRepeat(SPACE, n);
    ExpandConcat(blanks, shown);
    ExpandConcat(shown, blanks);
  }

  /** What a field width does: it cuts a longer text and fills a shorter one with blanks, in front or behind. */
  lemma FilledField(item: Item, text: Text16, shown: Text16, blanks: Text16)
    requires item.width == 0 && item.fieldWidth < NO_FIELD_WIDTH
    requires shown == (if |text| <= item.fieldWidth then text else text[..item.fieldWidth]) && blanks == Repeat(SPACE, item.fieldWidth - |text|)
    ensures Expand(Field(item, text)) == if item.padBefore then blanks + Expand(shown) else Expand(shown) + blanks
  {
    FieldLaid(item, text, shown, blanks);
    BlanksAround(shown, blanks, item.fieldWidth - |text|);
  }

  lemma FieldShown(l: Word64, s: Text16, after: Text16, rest: seq<Arg>, out: Text16)
    requires l > 0 && NoNul(s) && out == Expand(Field(NewItem().(parsesField := true, fieldWidth := l), s))
    ensures Prints(Percent(DotSized(l)), [String(s + [0] + after)] + rest, out, rest)
  {
    var item, args := NewItem().(parsesField := true, fieldWidth := l), [String(s + [0] + after)] + rest;
    StringEnds('s' as int, item, s, after, rest);
    FieldDirective(l, NewItem(), args);
    ShownAs(Percent(DotSized(l)), DotSized(l), args, item, s, rest, out);
  }

  /** A field width cuts a longer text, and puts blanks in front of a shorter one. */
  lemma FieldPrinted(l: Word64, s: Text16, after: Text16, rest: seq<Arg>)
    requires 0 < l < NO_FIELD_WIDTH && NoNul(s)
    ensures Prints(Percent(DotSized(l)), [String(s + [0] + after)] + rest,
              Repeat(' ' as int, l - |s|) + Expand(if |s| <= l then s else s[..l]), rest)
  {
    var item := NewItem().(parsesField := true, fieldWidth := l);
    var shown, blanks := if |s| <= l then s else s[..l], Repeat(' ' as int, l - |s|);
    FilledField(item, s, shown, blanks);
    FieldShown(l, s, after, rest, blanks + Expand(shown));
  }

  lemma DashFieldShown(l: Word64, s: Text16, after: Text16, rest: seq<Arg>, out: Text16)
    requires l > 0 && NoNul(s) && out == Expand(Field(NewItem().(padBefore := false, parsesField := true, fieldWidth := l), s))
    ensures Prints(Percent(DashDotSized(l)), [String(s + [0] + after)] + rest, out, rest)
  {
    var dash, args := NewItem().(padBefore := false), [String(s + [0] + after)] + rest;
    var item := dash.(parsesField := true, fieldWidth := l);
    StringEnds('s' as int, item, s, after, rest);
    FieldDirective(l, dash, args);
    ModifierFirst('-' as int, DotSized(l), NewItem(), args);
    ShownAs(Percent(DashDotSized(l)), DashDotSized(l), args, item, s, rest, out);
  }

  /** After a dash the blanks stand behind the text. */
  lemma DashFieldPrinted(l: Word64, s: Text16, after: Text16, rest: seq<Arg>)
    requires 0 < l < NO_FIELD_WIDTH && NoNul(s)
    ensures Prints(Percent(DashDotSized(l)), [String(s + [0] + after)] + rest,
              Expand(if |s| <= l then s else s[..l]) + Repeat(' ' as int, l - |s|), rest)
  {
    var item := NewItem().(padBefore := false, parsesField := true, fieldWidth := l);
    var shown, blanks := if |s| <= l then s else s[..l], Repeat(' ' as int, l - |s|);
    FilledField(item, s, shown, blanks);
    DashFieldShown(l, s, after, rest, Expand(shown) + blanks);
  }

  // ----- commas -----

  /** The digits are those of the plain number; from the right, exactly every fourth character is a comma. */
  ghost predicate Separated(text: Text16, plain: Text16) {
    && WithoutCommas(text) == plain && |text| > 0 && text[0] != 0x2C
    && forall j :: 0 <= j < |text| ==> (text[|text| - 1 - j] == 0x2C <==> j % 4 == 3)
  }

  /** "%,d" prints the number with commas. */
  lemma CommaPrinted(x: Word64, rest: seq<Arg>, plain: Text16)
    requires x < 0x8000_0000 && Prints(Short('d' as int), [Value(x)], plain, [])
    ensures exists text :: Prints(Percent(Commas()), [Value(x)] + rest, text, rest) && Separated(text, plain)
  {
    DecimalIs(x, plain);
    CommaText(x, rest, Grouped(plain));
    CommasSeparate(x, plain);
  }

  lemma DecimalIs(x: Word64, plain: Text16)
    requires x < 0x8000_0000 && Prints(Short('d' as int), [Value(x)], plain, [])
    ensures plain == Text(10, x)
  {
    SignedHalf(x, x);
    ShortDIs(x, plain);
  }

  lemma CommasSeparate(x: nat, plain: Text16)
    requires plain == Text(10, x)
    ensures Separated(Grouped(plain), plain)
  {
    CommasOnlySeparate(x);
  }

  lemma GroupedPositive(x: Word64)
    requires x < 0x8000_0000
    ensures SignedText(SignedLow(x, false), true) == Grouped(Text(10, x))
  {
    assert SignedLow(x, false) == x;
    EmptyLeft(Grouped(Text(10, x)));
  }

  lemma CommaText(x: Word64, rest: seq<Arg>, text: Text16)
    requires x < 0x8000_0000 && text == Grouped(Text(10, x))
    ensures Prints(Percent(Commas()), [Value(x)] + rest, text, rest)
  {
    var item, args := NewItem().(comma := true), [Value(x)] + rest;
    GroupedPositive(x);
    DecimalEnds(item, x, rest, text);
    ModifierFirst(',' as int, ['d' as int], NewItem(), args);
    assert Commas() == [',' as int] + ['d' as int];
    GroupedBound(x);
    PlainField(item, text);
    GroupedNoNewline(x);
    ShownAs(Percent(Commas()), Commas(), args, item, text, rest, text);
  }

  lemma GroupedBound(x: Word64)
    ensures |Grouped(Text(10, x))| < NO_FIELD_WIDTH
  {
    TextLength(10, x);
    WrittenValue(10, x);
    TextHasNoComma(Written(10, x));
    GroupedShape(Text(10, x));
  }

  lemma GroupedNoNewline(v: nat)
    ensures Expand(Grouped(Text(10, v))) == Grouped(Text(10, v))
  {
    var t := Text(10, v);
    TextNoNewline(10, v);
    if |t| > 0 {
      ContinuedNoNewline(t[1..]);
    }
    ExpandNoNewline(Grouped(t));
  }

  lemma {:induction false} ContinuedNoNewline(t: Text16)
    requires forall i :: 0 <= i < |t| ==> t[i] != NEWLINE
    ensures forall i :: 0 <= i < |Continued(t)| ==> Continued(t)[i] != NEWLINE
    decreases |t|
  {
    if |t| > 0 {
      ContinuedNoNewline(t[1..]);
      ContinuedUnfold(t);
    }
  }

  // ----- colours -----

  /** The attribute that a letter stands for on the display. */
  ghost predicate Names(c: Char16, colours: Colours, attr: Word64) {
    || (c == 'n' as int && attr == colours.normal)
    || (c == 'h' as int && attr == colours.highlight)
    || (c == 'e' as int && attr == colours.error)
  }

  /** A small letter colours the field of its directive, and the attribute before it returns unless that was 0. */
  lemma FieldColourShown(c: Char16, colour: Word64, args: seq<Arg>, attr: Word64, colours: Colours)
    requires Names(c, colours, colour)
    ensures Render(['%' as int, c, '%' as int], args, attr, colours)
         == Rendered([Cell('%' as int, colour)], if attr != 0 then attr else colour, args)
  {
    var t, pen, text := [c, '%' as int], Pen(colour, attr), ['%' as int];
    assert t[1..] == text && text[1..] == [];
    assert Next(t, NewItem(), args, Pen(attr, 0), colours) == More(text, NewItem(), args, pen);
    assert Next(text, NewItem(), args, pen, colours) == Show([], NewItem(), args, pen, text);
    assert Directive(text, NewItem(), args, pen, colours) == Show([], NewItem(), args, pen, text);
    PercentRendered(t, colour, args, attr, pen, colours);
    assert ['%' as int] + t == ['%' as int, c, '%' as int];
  }

  lemma PercentRendered(t: Text16, colour: Word64, args: seq<Arg>, attr: Word64, pen: Pen, colours: Colours)
    requires pen == Pen(colour, attr)
    requires Directive(t, NewItem(), args, Pen(attr, 0), colours) == Show([], NewItem(), args, pen, ['%' as int])
    ensures Render(['%' as int] + t, args, attr, colours) == Rendered([Cell('%' as int, colour)], if attr != 0 then attr else colour, args)
  {
    var fmt, text, cells := ['%' as int] + t, ['%' as int], [Cell('%' as int, colour)];
    assert fmt[1..] == t;
    PlainField(NewItem(), text);
    ExpandNoNewline(text);
    assert text[1..] == [] && Paint([], colour) == [];
    assert Paint(text, colour) == [Cell(text[0], colour)] + [] == cells;
    assert cells + [] == cells;
    assert Render(fmt, args, attr, colours) == Before(cells, Render([], args, AttrAfter(pen), colours));
  }

  /** A capital letter whose attribute is not 0 sets the attribute for what follows. */
  lemma LastingColourShown(c: Char16, colour: Word64, u: Text16, args: seq<Arg>, attr: Word64, colours: Colours)
    requires colour != 0
    requires || (c == 'N' as int && colour == colours.normal)
             || (c == 'H' as int && colour == colours.highlight)
             || (c == 'E' as int && colour == colours.error)
    ensures Render(['%' as int, c] + u, args, attr, colours) == Render(u, args, colour, colours)
  {
    LastingColourRenders(c, u, args, attr, colours);
  }
}
