/**
 What the formatted printer of bootloader/gnu-efi/lib/print.c puts into memory: the characters of a format
 without a display, where every attribute is 0.
 */
module PrintText {
  import opened Basics
  import opened Digits
  import opened PrintNumbers
  import opened PrintFormat
  import opened PrintLaws

  function NoColours(): Colours {
    Colours(0, 0, 0)
  }

  /** What a format shows when there is no display: its characters. */
  function Output(fmt: Text16, args: seq<Arg>): Text16
    requires Complete(fmt, args)
  {
    Plain(Render(fmt, args, 0, NoColours()).cells)
  }

  predicate Complete(fmt: Text16, args: seq<Arg>) {
    Render(fmt, args, 0, NoColours()).Rendered?
  }

  // ----- appending is printing the joined format -----

  lemma {:induction false} DirectiveKeepsNoColour(t: Text16, item: Item, args: seq<Arg>)
    ensures var d := Directive(t, item, args, Pen(0, 0), NoColours()); !d.Recolour? && (d.Show? ==> d.pen == Pen(0, 0))
    decreases |t|
  {
    if |t| > 0 {
      var step := Next(t, item, args, Pen(0, 0), NoColours());
      if step.More? {
        assert step.pen == Pen(0, 0);
        DirectiveKeepsNoColour(step.rest, step.item, step.args);
      }
    }
  }

  lemma {:induction false} RenderKeepsNoColour(t: Text16, args: seq<Arg>)
    requires Complete(t, args)
    ensures Render(t, args, 0, NoColours()).attr == 0
    decreases |t|
  {
    if |t| > 0 {
      if t[0] != PERCENT {
        RenderKeepsNoColour(t[1..], args);
      } else {
        DirectiveKeepsNoColour(t[1..], NewItem(), args);
        var d := Directive(t[1..], NewItem(), args, Pen(0, 0), NoColours());
        RenderKeepsNoColour(d.rest, d.args);
      }
    }
  }

  /** Printing one format and appending another is printing both formats joined: the second takes the
      arguments that the first leaves. */
  lemma JoinedOutput(f: Text16, g: Text16, args: seq<Arg>)
    requires Complete(f, args) && Complete(g, Render(f, args, 0, NoColours()).args)
    ensures Complete(f + g, args)
    ensures Output(f + g, args) == Output(f, args) + Output(g, Render(f, args, 0, NoColours()).args)
  {
    var r := Render(f, args, 0, NoColours());
    RenderKeepsNoColour(f, args);
    RenderConcat(f, g, args, 0, NoColours());
    PlainConcat(r.cells, Render(g, r.args, 0, NoColours()).cells);
  }

  // ----- numbers through the printer and back -----

  function LongDirective(c: Char16): Text16 {
    [PERCENT, 'l' as int, c]
  }

  /** The directive shows the number's text and takes nothing more. */
  lemma LongNumberDirective(c: Char16, v: Word64)
    requires c == 'd' as int || c == 'u' as int || c == 'x' as int
    ensures var item := NewItem().(long := true);
            Directive(['l' as int, c], NewItem(), [Value(v)], Pen(0, 0), NoColours()) == Show([], item, [], Pen(0, 0), NumberText(c, item, v))
  {
    var item, args := NewItem().(long := true), [Value(v)];
    var t := ['l' as int, c];
    assert t[1..] == [c] && [c][1..] == [] && args[1..] == [];
    assert Next(t, NewItem(), args, Pen(0, 0), NoColours()) == More([c], item, args, Pen(0, 0));
    assert Next([c], item, args, Pen(0, 0), NoColours()) == Show([], item, [], Pen(0, 0), NumberText(c, item, v));
    assert Directive([c], item, args, Pen(0, 0), NoColours()) == Show([], item, [], Pen(0, 0), NumberText(c, item, v));
  }

  /** Without widths a field is its text. */
  lemma PlainField(item: Item, text: Text16)
    requires item.fieldWidth == NO_FIELD_WIDTH && item.width == 0 && |text| < NO_FIELD_WIDTH
    ensures Field(item, text) == text
  {}

  lemma LongNumber(c: Char16, v: Word64)
    requires c == 'd' as int || c == 'u' as int || c == 'x' as int
    ensures Complete(LongDirective(c), [Value(v)])
    ensures Output(LongDirective(c), [Value(v)]) == Expand(NumberText(c, NewItem().(long := true), v))
  {
    var t, item := LongDirective(c), NewItem().(long := true);
    var text := NumberText(c, item, v);
    assert t[1..] == ['l' as int, c];
    LongNumberDirective(c, v);
    NumberLength(c, item, v);
    PlainField(item, text);
    var cells := Ink(text, 0);
    assert Render(t, [Value(v)], 0, NoColours()) == Before(cells, Render([], [], 0, NoColours()));
    assert cells + [] == cells;
    PlainPaint(Expand(text), 0);
  }

  lemma TextLength(base: Base, v: nat)
    requires v < TWO64
    ensures |Text(base, v)| <= 20
  {
    Below64(v);
  }

  lemma NumberLength(c: Char16, item: Item, v: Word64)
    requires ((c == 'd' as int || c == 'u' as int) && !item.comma) || c == 'x' as int
    ensures |NumberText(c, item, v)| <= 21
  {
    if c == 'x' as int {
      TextLength(16, Low(v, item.long));
    } else {
      SignedTextLength(if c == 'd' as int then SignedLow(v, item.long) else UnsignedLow(v, item.long));
    }
  }

  lemma SignedTextLength(v: int)
    requires -TWO63 <= v < TWO63
    ensures |SignedText(v, false)| <= 21
  {
    TextLength(10, Magnitude(v));
  }

  lemma {:induction false} ExpandNoNewline(s: Text16)
    requires forall i :: 0 <= i < |s| ==> s[i] != NEWLINE
    ensures Expand(s) == s
  {
    if |s| > 0 {
      ExpandNoNewline(s[1..]);
    }
  }

  lemma TextNoNewline(base: Base, v: nat)
    ensures forall i :: 0 <= i < |Text(base, v)| ==> Text(base, v)[i] != NEWLINE
  {
    CharsFromZero(Written(base, v));
  }

  /** A value printed with "%ld" or "%lx" is read back by the parsers of str.c. */
  lemma PrintedNumbersReadBack(v: Word64)
    ensures Complete(LongDirective('d' as int), [Value(v)]) && Complete(LongDirective('x' as int), [Value(v)])
    ensures v < TWO63 ==> Parsed(10, Output(LongDirective('d' as int), [Value(v)]) + [0]) == v
    ensures Parsed(16, Output(LongDirective('x' as int), [Value(v)]) + [0]) == v
  {
    var hex := Text(16, v);
    LongNumber('x' as int, v);
    LongNumber('d' as int, v);
    TextNoNewline(16, v);
    ExpandNoNewline(hex);
    XtoiUndoesValueToHex(v);
    if v < TWO63 {
      TextNoNewline(10, v);
      ExpandNoNewline(SignedText(v, false));
      AtoiUndoesValueToString(v);
    }
  }

  // ----- a number that loses its sign, and a field that is not justified -----

  /** The largest 64-bit value, printed as unsigned. */
  lemma LargestUnsigned()
    ensures var args := [Value(0xFFFF_FFFF_FFFF_FFFF)];
            Complete(LongDirective('u' as int), args) && Output(LongDirective('u' as int), args) == ['-' as int, '1' as int]
  {
    var v: Word64 := 0xFFFF_FFFF_FFFF_FFFF;
    LongNumber('u' as int, v);
    OneText();
    var text := NumberText('u' as int, NewItem().(long := true), v);
    assert text == Sign(-1) + Text(10, 1) == ['-' as int, '1' as int];
    ExpandNoNewline(text);
  }

  lemma OneText()
    ensures Text(10, 1) == ['1' as int]
  {
    assert LowDigits(10, 0) == [] && LowDigits(10, 1) == [1] && [1][1..] == [];
    assert Reverse([1]) == [1] && Written(10, 1) == [1];
  }

  function DashFive(): Text16 {
    [PERCENT, '-' as int, '5' as int, 'd' as int]
  }

  /** "%-5d" puts a one-digit number on the right of its five characters. */
  lemma DashIgnored(v: Word64)
    requires v < 10
    ensures Complete(DashFive(), [Value(v)])
    ensures Output(DashFive(), [Value(v)]) == Repeat(SPACE, 4) + SignedText(v, false) && |SignedText(v, false)| == 1
  {
    var item := NewItem().(padBefore := false, width := 5);
    var text := SignedText(v, false);
    DashFiveDirective(v);
    OneDigit(v);
    assert DashFive()[1..] == ['-' as int, '5' as int, 'd' as int];
    var f := Repeat(SPACE, 4) + text;
    assert Field(item, text) == f by {
      assert f + [] == f;
    }
    var cells := Ink(f, 0);
    assert Render(DashFive(), [Value(v)], 0, NoColours()) == Before(cells, Render([], [], 0, NoColours()));
    assert cells + [] == cells;
    RepeatAll(SPACE, 4);
    ExpandNoNewline(f);
    PlainPaint(f, 0);
  }

  lemma OneDigit(v: nat)
    requires v < 10
    ensures |SignedText(v, false)| == 1 && SignedText(v, false)[0] == ZERO + v
  {
    CharsAt(Written(10, v), 0);
    if v > 0 {
      assert LowDigits(10, 0) == [] && LowDigits(10, v) == [v] && [v][1..] == [];
      assert Reverse([v]) == [v] && Written(10, v) == [v];
    }
  }

  lemma DashFiveDirective(v: Word64)
    requires v < 10
    ensures Directive(['-' as int, '5' as int, 'd' as int], NewItem(), [Value(v)], Pen(0, 0), NoColours())
         == Show([], NewItem().(padBefore := false, width := 5), [], Pen(0, 0), SignedText(v, false))
  {
    var t, t5 := ['-' as int, '5' as int, 'd' as int], ['5' as int, 'd' as int];
    assert t[1..] == t5;
    FiveDirective(NewItem().(padBefore := false), v);
    assert Next(t, NewItem(), [Value(v)], Pen(0, 0), NoColours()) == More(t5, NewItem().(padBefore := false), [Value(v)], Pen(0, 0));
  }

  lemma FiveDirective(item: Item, v: Word64)
    requires v < 10 && !item.parsesField && !item.long && !item.comma
    ensures Directive(['5' as int, 'd' as int], item, [Value(v)], Pen(0, 0), NoColours())
         == Show([], item.(width := 5), [], Pen(0, 0), SignedText(v, false))
  {
    var t, d := ['5' as int, 'd' as int], ['d' as int];
    assert t[1..] == d;
    assert AfterDigits(d) == d && AfterDigits(t) == d && Number(0, t) == Number(5, d) == 5;
    DecimalDirective(item.(width := 5), v);
    assert Next(t, item, [Value(v)], Pen(0, 0), NoColours()) == More(d, item.(width := 5), [Value(v)], Pen(0, 0));
  }

  lemma DecimalDirective(item: Item, v: Word64)
    requires v < 10 && !item.long && !item.comma
    ensures Directive(['d' as int], item, [Value(v)], Pen(0, 0), NoColours())
         == Show([], item, [], Pen(0, 0), SignedText(v, false))
  {
    assert ['d' as int][1..] == [] && [Value(v)][1..] == [];
    assert SignedLow(v, false) == v;
  }

  // ----- a colour that swallows text -----

  function Hello(): Text16 {
    ['H' as int, 'e' as int, 'l' as int, 'l' as int, 'o' as int]
  }

  lemma HelloDirective()
    ensures Directive(['E' as int] + Hello(), NewItem(), [], Pen(0, 0), NoColours())
         == Show([], NewItem().(long := true), [], Pen(0, 0), ['?' as int])
  {
    var none, item, pen := NoColours(), NewItem(), Pen(0, 0);
    var ello := ['e' as int, 'l' as int, 'l' as int, 'o' as int];
    LloDirective();
    assert ello == ['e' as int] + ['l' as int, 'l' as int, 'o' as int] && Hello() == ['H' as int] + ello;
    ColourGoesOn('e' as int, ['l' as int, 'l' as int, 'o' as int], [], pen, none);
    LastingColourNext('H' as int, ello, item, [], pen, none);
    LastingColourNext('E' as int, Hello(), item, [], pen, none);
  }

  lemma LloDirective()
    ensures Directive(['l' as int, 'l' as int, 'o' as int], NewItem(), [], Pen(0, 0), NoColours())
         == Show([], NewItem().(long := true), [], Pen(0, 0), ['?' as int])
  {
    var none, item, pen := NoColours(), NewItem(), Pen(0, 0);
    var long := item.(long := true);
    var o, lo, llo := ['o' as int], ['l' as int, 'o' as int], ['l' as int, 'l' as int, 'o' as int];
    assert o[1..] == [] && lo[1..] == o && llo[1..] == lo;
    assert Next(o, long, [], pen, none) == Show([], long, [], pen, ['?' as int]);
    assert Next(lo, long, [], pen, none) == More(o, long, [], pen);
    assert Next(llo, item, [], pen, none) == More(lo, long, [], pen);
    assert Directive(o, long, [], pen, none) == Show([], long, [], pen, ['?' as int]);
    assert Directive(lo, long, [], pen, none) == Show([], long, [], pen, ['?' as int]);
  }

  /** Without a display, "%EHello" shows a question mark: the letters after the colour are read as more of its
      directive, up to one that is unknown. */
  lemma HelloSwallowed()
    ensures Complete([PERCENT, 'E' as int] + Hello(), []) && Output([PERCENT, 'E' as int] + Hello(), []) == ['?' as int]
  {
    var t, item, text := [PERCENT, 'E' as int] + Hello(), NewItem().(long := true), ['?' as int];
    assert t[1..] == ['E' as int] + Hello();
    HelloDirective();
    PlainField(item, text);
    var cells := Ink(text, 0);
    assert Render(t, [], 0, NoColours()) == Before(cells, Render([], [], 0, NoColours()));
    assert cells + [] == cells;
    ExpandNoNewline(text);
    PlainPaint(text, 0);
  }
}
