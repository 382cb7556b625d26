/**
 Laws of the format language of bootloader/gnu-efi/lib/print.c: formats can be joined, plain text shows
 itself, which attribute is left after a field or a colour, and no format shows a terminator.
 */
module PrintLaws {
  import opened Basics
  import opened Digits
  import opened PrintNumbers
  import opened PrintFormat

  // ----- joining formats -----

  lemma {:induction false} AfterDigitsConcat(t: Text16, u: Text16, acc: Word64)
    requires |AfterDigits(t)| > 0
    ensures AfterDigits(t + u) == AfterDigits(t) + u && Number(acc, t + u) == Number(acc, t)
    decreases |t|
  {
    if Digit(t[0]) {
      assert (t + u)[1..] == t[1..] + u;
      AfterDigitsConcat(t[1..], u, Mod64(acc * 10 + (t[0] - '0' as int)));
    }
  }

  function Followed(s: Step, u: Text16): Step {
    if s.Incomplete? then s else s.(rest := s.rest + u)
  }

  lemma NextConcat(t: Text16, u: Text16, item: Item, args: seq<Arg>, pen: Pen, colours: Colours)
    requires |t| > 0
    requires StartsNumber(t[0]) ==> |AfterDigits(t)| > 0
    ensures Next(t + u, item, args, pen, colours) == Followed(Next(t, item, args, pen, colours), u)
  {
    assert (t + u)[0] == t[0] && (t + u)[1..] == t[1..] + u;
    if StartsNumber(t[0]) {
      AfterDigitsConcat(t, u, 0);
    } else {
      NextOtherConcat(t[0], t[1..], u, item, args, pen, colours);
    }
  }

  lemma NextOtherConcat(c: Char16, rest: Text16, u: Text16, item: Item, args: seq<Arg>, pen: Pen, colours: Colours)
    ensures NextOther(c, rest + u, item, args, pen, colours) == Followed(NextOther(c, rest, item, args, pen, colours), u)
  {
    if Colour(c) {
    } else if c == '*' as int || c == 'c' as int || TakesNumber(c) {
      NextNumberConcat(c, rest, u, item, args, pen);
    } else {
      NextTextConcat(c, rest, u, item, args, pen);
    }
  }

  lemma NextNumberConcat(c: Char16, rest: Text16, u: Text16, item: Item, args: seq<Arg>, pen: Pen)
    requires c == '*' as int || c == 'c' as int || TakesNumber(c)
    ensures NextNumber(c, rest + u, item, args, pen) == Followed(NextNumber(c, rest, item, args, pen), u)
  {}

  lemma NextTextConcat(c: Char16, rest: Text16, u: Text16, item: Item, args: seq<Arg>, pen: Pen)
    ensures NextText(c, rest + u, item, args, pen) == Followed(NextText(c, rest, item, args, pen), u)
  {}

  /** A complete directive does the same whatever follows it. */
  lemma {:induction false} DirectiveConcat(t: Text16, u: Text16, item: Item, args: seq<Arg>, pen: Pen, colours: Colours)
    requires !Directive(t, item, args, pen, colours).Incomplete?
    ensures Directive(t + u, item, args, pen, colours) == Followed(Directive(t, item, args, pen, colours), u)
    decreases |t|
  {
    var step := Next(t, item, args, pen, colours);
    if step.More? {
      assert |step.rest| > 0;
      DirectiveConcat(step.rest, u, step.item, step.args, step.pen, colours);
    }
    NextConcat(t, u, item, args, pen, colours);
  }

  lemma BeforeConcat(a: seq<Cell>, b: seq<Cell>, r: Rendering)
    ensures Before(a, Before(b, r)) == Before(a + b, r)
  {
    if r.Rendered? {
      assert a + (b + r.cells) == (a + b) + r.cells;
    }
  }

  /** Rendering a format in two parts: the second part goes on with the arguments and the attribute that the
      first part leaves. */
  lemma {:induction false} RenderConcat(t: Text16, u: Text16, args: seq<Arg>, attr: Word64, colours: Colours)
    requires Render(t, args, attr, colours).Rendered?
    ensures var r := Render(t, args, attr, colours);
            Render(t + u, args, attr, colours) == Before(r.cells, Render(u, r.args, r.attr, colours))
    decreases |t|
  {
    var tail := t + u;
    if |t| == 0 {
      assert tail == u;
    } else {
      assert tail[1..] == t[1..] + u;
      if t[0] != PERCENT {
        RenderConcat(t[1..], u, args, attr, colours);
        var r := Render(t[1..], args, attr, colours);
        BeforeConcat(Ink([t[0]], attr), r.cells, Render(u, r.args, r.attr, colours));
      } else {
        RenderConcatDirective(t, u, args, attr, colours);
      }
    }
  }

  lemma {:induction false} RenderConcatDirective(t: Text16, u: Text16, args: seq<Arg>, attr: Word64, colours: Colours)
    requires |t| > 0 && t[0] == PERCENT && Render(t, args, attr, colours).Rendered?
    ensures var r := Render(t, args, attr, colours);
            Render(t + u, args, attr, colours) == Before(r.cells, Render(u, r.args, r.attr, colours))
    decreases |t|, 0
  {
    assert (t + u)[1..] == t[1..] + u;
    DirectiveConcat(t[1..], u, NewItem(), args, Pen(attr, 0), colours);
    var d := Directive(t[1..], NewItem(), args, Pen(attr, 0), colours);
    match d
    case Show(rest, item, args', pen, text) =>
      RenderConcat(rest, u, args', AttrAfter(pen), colours);
      var r := Render(rest, args', AttrAfter(pen), colours);
      BeforeConcat(Ink(Field(item, text), pen.attr), r.cells, Render(u, r.args, r.attr, colours));
    case Recolour(rest, args', attr') =>
      RenderConcat(rest, u, args', attr', colours);
  }

  /** A lasting colour does what it says, whatever follows it, exactly when its attribute is not 0.  Otherwise the
      letter is skipped and the characters after it are read as more of the directive. */
  lemma LastingColourEnds(c: Char16, colours: Colours)
    requires LastingColour(c)
    ensures (forall u, args, attr ::
               Render([PERCENT, c] + u, args, attr, colours) == Render(u, args, ColourOf(c, colours), colours))
            <==> ColourOf(c, colours) != 0
  {
    if ColourOf(c, colours) != 0 {
      forall u, args, attr
        ensures Render([PERCENT, c] + u, args, attr, colours) == Render(u, args, ColourOf(c, colours), colours)
      {
        LastingColourRenders(c, u, args, attr, colours);
      }
    } else {
      LastingColourUnfinished(c, colours);
    }
  }

  lemma LastingColourRenders(c: Char16, u: Text16, args: seq<Arg>, attr: Word64, colours: Colours)
    requires LastingColour(c) && ColourOf(c, colours) != 0
    ensures Render([PERCENT, c] + u, args, attr, colours) == Render(u, args, ColourOf(c, colours), colours)
  {
    assert ([PERCENT, c] + u)[1..] == [c] + u;
    LastingColourNext(c, u, NewItem(), args, Pen(attr, 0), colours);
  }

  /** At the end of a format, a colour of 0 leaves its directive open. */
  lemma LastingColourUnfinished(c: Char16, colours: Colours)
    requires LastingColour(c) && ColourOf(c, colours) == 0
    ensures Render([PERCENT, c] + [], [], 0, colours) != Render([], [], ColourOf(c, colours), colours)
  {
    assert ([PERCENT, c] + [])[1..] == [c] + [];
    LastingColourNext(c, [], NewItem(), [], Pen(0, 0), colours);
  }

  lemma LastingColourNext(c: Char16, t: Text16, item: Item, args: seq<Arg>, pen: Pen, colours: Colours)
    requires LastingColour(c)
    ensures Directive([c] + t, item, args, pen, colours)
         == if ColourOf(c, colours) != 0 then Recolour(t, args, ColourOf(c, colours))
            else Directive(t, item, args, pen, colours)
  {
    assert ([c] + t)[1..] == t;
  }

  // ----- the attribute after a field -----

  /** The field colours among some characters. */
  function FieldLetters(s: Text16): Text16 {
    if |s| == 0 then [] else (if FieldColour(s[0]) then [s[0]] else []) + FieldLetters(s[1..])
  }

  lemma {:induction false} FieldLettersConcat(a: Text16, b: Text16)
    ensures FieldLetters(a + b) == FieldLetters(a) + FieldLetters(b)
    decreases |a|
  {
    if |a| == 0 {
      assert a + b == b;
    } else {
      assert (a + b)[1..] == a[1..] + b;
      FieldLettersConcat(a[1..], b);
    }
  }

  /** The pen after some field colours: each is used from then on and would return to the one before it. */
  function PenAfter(pen: Pen, letters: Text16, colours: Colours): Pen {
    if |letters| == 0 then pen
    else Pen(ColourOf(letters[|letters| - 1], colours), PenAfter(pen, letters[..|letters| - 1], colours).attr)
  }

  lemma {:induction false} PenAfterConcat(pen: Pen, a: Text16, b: Text16, colours: Colours)
    ensures PenAfter(pen, a + b, colours) == PenAfter(PenAfter(pen, a, colours), b, colours)
    decreases |b|
  {
    if |b| == 0 {
      assert a + b == a;
    } else {
      assert (a + b)[..|a + b| - 1] == a + b[..|b| - 1];
      PenAfterConcat(pen, a, b[..|b| - 1], colours);
    }
  }

  /** What a directive has read when rest is left of t. */
  function Read(t: Text16, rest: Text16): Text16
    requires |rest| <= |t|
  {
    t[..|t| - |rest|]
  }

  lemma ReadCons(t: Text16, rest: Text16)
    requires |rest| < |t|
    ensures Read(t, rest) == [t[0]] + Read(t[1..], rest)
  {}

  lemma FieldLettersCons(c: Char16, s: Text16)
    ensures FieldLetters([c] + s) == (if FieldColour(c) then [c] else []) + FieldLetters(s)
  {
    assert ([c] + s)[1..] == s;
  }

  lemma {:induction false} DigitsRead(t: Text16)
    ensures t[|t| - |AfterDigits(t)|..] == AfterDigits(t) && FieldLetters(Read(t, AfterDigits(t))) == []
    decreases |t|
  {
    var rest := AfterDigits(t);
    if |t| > 0 && Digit(t[0]) {
      DigitsRead(t[1..]);
      ReadCons(t, rest);
      FieldLettersCons(t[0], Read(t[1..], rest));
    }
  }

  lemma NextPen(t: Text16, item: Item, args: seq<Arg>, pen: Pen, colours: Colours)
    requires |t| > 0
    ensures var step := Next(t, item, args, pen, colours);
            step.More? || step.Show? ==>
              && t[|t| - |step.rest|..] == step.rest
              && step.pen == PenAfter(pen, FieldLetters(Read(t, step.rest)), colours)
  {
    var step := Next(t, item, args, pen, colours);
    if StartsNumber(t[0]) {
      DigitsRead(t);
    } else if !step.Incomplete? {
      assert Read(t, step.rest) == [t[0]];
      OneLetter(t[0], pen, colours);
    }
  }

  lemma ReadInTwo(t: Text16, middle: Text16, rest: Text16)
    requires |rest| <= |middle| <= |t| && t[|t| - |middle|..] == middle && middle[|middle| - |rest|..] == rest
    ensures Read(t, rest) == Read(t, middle) + Read(middle, rest) && t[|t| - |rest|..] == rest
  {
    assert forall i :: 0 <= i < |middle| ==> t[|t| - |middle| + i] == middle[i];
  }

  lemma OneLetter(c: Char16, pen: Pen, colours: Colours)
    ensures FieldLetters([c]) == if FieldColour(c) then [c] else []
    ensures PenAfter(pen, [c], colours) == Pen(ColourOf(c, colours), pen.attr)
  {
    assert [c][1..] == [] && [c][..0] == [];
  }

  /** The pen of a field follows from the field colours read in its directive. */
  lemma {:induction false} DirectivePen(t: Text16, item: Item, args: seq<Arg>, pen: Pen, colours: Colours)
    requires Directive(t, item, args, pen, colours).Show?
    ensures var d := Directive(t, item, args, pen, colours);
            && t[|t| - |d.rest|..] == d.rest
            && d.pen == PenAfter(pen, FieldLetters(Read(t, d.rest)), colours)
    decreases |t|
  {
    var step := Next(t, item, args, pen, colours);
    NextPen(t, item, args, pen, colours);
    if step.More? {
      DirectivePen(step.rest, step.item, step.args, step.pen, colours);
      var d := Directive(t, item, args, pen, colours);
      var first, later := Read(t, step.rest), Read(step.rest, d.rest);
      ReadInTwo(t, step.rest, d.rest);
      FieldLettersConcat(first, later);
      PenAfterConcat(pen, FieldLetters(first), FieldLetters(later), colours);
    }
  }

  /** No field colour is read on the way from t to rest. */
  ghost predicate Quiet(t: Text16, rest: Text16) {
    |rest| <= |t| && FieldLetters(Read(t, rest)) == []
  }

  lemma QuietStep(t: Text16, middle: Text16, rest: Text16)
    requires |rest| < |middle| <= |t| && t[|t| - |middle|..] == middle && middle[|middle| - |rest|..] == rest
    ensures Quiet(t, rest) ==> Quiet(t, middle) && !FieldColour(middle[0])
  {
    ReadInTwo(t, middle, rest);
    FieldLettersConcat(Read(t, middle), Read(middle, rest));
  }

  /** No directive of the format reads a colour. */
  ghost predicate Uncoloured(t: Text16, args: seq<Arg>, attr: Word64, colours: Colours)
    decreases |t|
  {
    if |t| == 0 then true
    else if t[0] != PERCENT then Uncoloured(t[1..], args, attr, colours)
    else
      var d := Directive(t[1..], NewItem(), args, Pen(attr, 0), colours);
      d.Show? && Quiet(t[1..], d.rest) && Uncoloured(d.rest, d.args, AttrAfter(d.pen), colours)
  }

  lemma {:induction false} PlainUncoloured(t: Text16, args: seq<Arg>, attr: Word64, colours: Colours)
    requires forall i :: 0 <= i < |t| ==> t[i] != PERCENT
    ensures Uncoloured(t, args, attr, colours)
    decreases |t|
  {
    if |t| > 0 {
      PlainUncoloured(t[1..], args, attr, colours);
    }
  }

  /** Without field colours the pen stays as it was. */
  lemma QuietPen(t: Text16, args: seq<Arg>, attr: Word64, colours: Colours)
    requires Directive(t, NewItem(), args, Pen(attr, 0), colours).Show?
    requires Quiet(t, Directive(t, NewItem(), args, Pen(attr, 0), colours).rest)
    ensures Directive(t, NewItem(), args, Pen(attr, 0), colours).pen == Pen(attr, 0)
  {
    DirectivePen(t, NewItem(), args, Pen(attr, 0), colours);
  }

  /** Field colours leave the attribute as it was: there are none, or there is one and the attribute is not 0,
      which would stand for none, or the last but one, if it is not 0, happens to be the attribute again. */
  predicate ColourForFieldOnly(letters: Text16, attr: Word64, colours: Colours) {
    if |letters| == 0 then true
    else
      var last := ColourOf(letters[|letters| - 1], colours);
      if |letters| == 1 then attr != 0 || last == 0
      else
        var previous := ColourOf(letters[|letters| - 2], colours);
        attr == if previous != 0 then previous else last
  }

  /** The attribute after a field is the one before its directive exactly when its field colours are such. */
  lemma FieldColourRestored(t: Text16, args: seq<Arg>, attr: Word64, colours: Colours)
    requires Directive(t, NewItem(), args, Pen(attr, 0), colours).Show?
    ensures var d := Directive(t, NewItem(), args, Pen(attr, 0), colours);
            AttrAfter(d.pen) == attr <==> ColourForFieldOnly(FieldLetters(Read(t, d.rest)), attr, colours)
  {
    var d := Directive(t, NewItem(), args, Pen(attr, 0), colours);
    DirectivePen(t, NewItem(), args, Pen(attr, 0), colours);
    var ls := FieldLetters(Read(t, d.rest));
    if |ls| > 1 {
      assert ls[..|ls| - 1][|ls| - 2] == ls[|ls| - 2];
    }
  }

  function ErrorField(): Text16 {
    [PERCENT, 'e' as int, 'd' as int]
  }

  function TwoColourField(): Text16 {
    [PERCENT, 'e' as int, 'h' as int, 'd' as int]
  }

  lemma NumberEnds(args: seq<Arg>, pen: Pen, colours: Colours)
    requires |args| > 0 && args[0].Value?
    ensures var d := Directive(['d' as int], NewItem(), args, pen, colours); d.Show? && d.rest == [] && d.pen == pen
  {
    assert ['d' as int][1..] == [];
  }

  lemma ColourGoesOn(c: Char16, t: Text16, args: seq<Arg>, pen: Pen, colours: Colours)
    requires FieldColour(c)
    ensures Directive([c] + t, NewItem(), args, pen, colours)
         == Directive(t, NewItem(), args, Pen(ColourOf(c, colours), pen.attr), colours)
  {
    assert ([c] + t)[1..] == t;
  }

  /** Two field colours, on a display with attribute 7: the first of them stays. */
  lemma TwoFieldColoursLeak(v: Word64)
    ensures var r := Render(TwoColourField(), [Value(v)], 7, Colours(7, 15, 14)); r.Rendered? && r.attr == 14
  {
    var args, colours := [Value(v)], Colours(7, 15, 14);
    var d: Text16 := ['d' as int];
    ColourGoesOn('e' as int, ['h' as int] + d, args, Pen(7, 0), colours);
    ColourGoesOn('h' as int, d, args, Pen(14, 7), colours);
    NumberEnds(args, Pen(15, 14), colours);
    assert TwoColourField()[1..] == ['e' as int] + (['h' as int] + d);
  }

  /** One field colour where the attribute was 0: it stays. */
  lemma FieldColourLeaksFromZero(v: Word64)
    ensures var r := Render(ErrorField(), [Value(v)], 0, Colours(7, 15, 14)); r.Rendered? && r.attr == 14
  {
    var args, colours := [Value(v)], Colours(7, 15, 14);
    var d: Text16 := ['d' as int];
    ColourGoesOn('e' as int, d, args, Pen(0, 0), colours);
    NumberEnds(args, Pen(14, 0), colours);
    assert ErrorField()[1..] == ['e' as int] + d;
  }

  // ----- plain formats -----

  /** A format without directives shows itself. */
  lemma {:induction false} RenderPlain(t: Text16, args: seq<Arg>, attr: Word64, colours: Colours)
    requires forall i :: 0 <= i < |t| ==> t[i] != PERCENT
    ensures Render(t, args, attr, colours) == Rendered(Ink(t, attr), attr, args)
    decreases |t|
  {
    if |t| > 0 {
      RenderPlain(t[1..], args, attr, colours);
      InkConcat([t[0]], t[1..], attr);
      assert t == [t[0]] + t[1..];
    }
  }

  // ----- justification -----

  /** With a dash the text stands at the start of its field exactly when the width asked for is no larger than the
      text: the padding to that width stays in front. */
  lemma DashJustifies(item: Item, text: Text16)
    requires !item.padBefore && |text| < NO_FIELD_WIDTH
    requires var shown := Truncated(text, item.fieldWidth); |shown| > 0 && shown[0] != item.pad
    ensures Truncated(text, item.fieldWidth) <= Field(item, text) <==> item.width <= |Truncated(text, item.fieldWidth)|
  {
    FieldShape(item, text);
    var f, shown := Field(item, text), Truncated(text, item.fieldWidth);
    if item.width > |shown| {
      assert f[0] == item.pad;
    } else {
      assert f[0..|shown|] == f[..|shown|];
    }
  }

  /** Without a field width the dash does nothing. */
  lemma DashNeedsFieldWidth(item: Item, text: Text16)
    requires item.fieldWidth == NO_FIELD_WIDTH && |text| < NO_FIELD_WIDTH
    ensures Field(item.(padBefore := false), text) == Field(item.(padBefore := true), text)
  {
    var padded := Repeat(item.pad, Max(item.width, |text|) - |text|) + text;
    assert [] + padded == padded && padded + [] == padded;
  }

  // ----- unsigned numbers -----

  /** Unsigned values are printed as such exactly when they are not 64-bit values from 2^63 on. */
  lemma UnsignedPrinted(item: Item, v: Word64)
    requires !item.comma
    ensures NumberText('u' as int, item, v) == Text(10, Low(v, item.long)) <==> !item.long || v < TWO63
  {
    var low := Low(v, item.long);
    if item.long && v >= TWO63 {
      assert NumberText('u' as int, item, v)[0] == MINUS;
      WrittenValue(10, low);
      CharsAt(Written(10, low), 0);
    } else {
      assert UnsignedLow(v, item.long) == low && [] + Text(10, low) == Text(10, low);
    }
  }

  // ----- no format shows a terminator -----

  lemma TextNoNul(base: Base, v: nat)
    ensures NoNul(Text(base, v))
  {
    CharsFromZero(Written(base, v));
  }

  lemma {:induction false} ContinuedNoNul(t: Text16)
    requires NoNul(t)
    ensures NoNul(Continued(t))
    decreases |t|
  {
    if |t| > 0 {
      ContinuedNoNul(t[1..]);
    }
  }

  lemma SignedTextNoNul(v: int, comma: bool)
    ensures NoNul(SignedText(v, comma))
  {
    var digits := Text(10, Magnitude(v));
    TextNoNul(10, Magnitude(v));
    if |digits| > 0 {
      ContinuedNoNul(digits[1..]);
    }
  }

  lemma NumberTextNoNul(c: Char16, item: Item, v: Word64)
    requires TakesNumber(c)
    ensures NoNul(NumberText(c, item, v))
  {
    if TakesHex(c) {
      TextNoNul(16, Low(v, item.long));
    } else {
      SignedTextNoNul(if c == 'd' as int then SignedLow(v, item.long) else UnsignedLow(v, item.long), item.comma);
    }
  }

  lemma NullNoNul()
    ensures NoNul(Null())
  {}

  lemma NextClean(t: Text16, item: Item, args: seq<Arg>, pen: Pen, colours: Colours)
    requires |t| > 0 && item.pad != 0
    ensures var step := Next(t, item, args, pen, colours);
            && (step.More? || step.Show? ==> step.item.pad != 0)
            && (step.Show? ==> NoNul(step.text))
  {
    var c := t[0];
    NullNoNul();
    if !StartsNumber(c) && !Modifier(c) && !Colour(c) && TakesNumber(c) && |args| > 0 && args[0].Value? {
      NumberTextNoNul(c, item, args[0].v);
    }
  }

  lemma {:induction false} DirectiveClean(t: Text16, item: Item, args: seq<Arg>, pen: Pen, colours: Colours)
    requires item.pad != 0 && Directive(t, item, args, pen, colours).Show?
    ensures var d := Directive(t, item, args, pen, colours); d.item.pad != 0 && NoNul(d.text)
    decreases |t|
  {
    var step := Next(t, item, args, pen, colours);
    NextClean(t, item, args, pen, colours);
    if step.More? {
      DirectiveClean(step.rest, step.item, step.args, step.pen, colours);
    }
  }

  lemma FieldNoNul(item: Item, text: Text16)
    requires item.pad != 0 && NoNul(text)
    ensures NoNul(Field(item, text))
  {
    var shown := Truncated(text, item.fieldWidth);
    var fieldWidth := if item.fieldWidth == NO_FIELD_WIDTH then |shown| else item.fieldWidth;
    var width := Max(item.width, |shown|);
    RepeatAll(SPACE, fieldWidth - width);
    RepeatAll(item.pad, width - |shown|);
  }

  lemma {:induction false} InkNoNul(s: Text16, attr: Word64)
    requires NoNul(s)
    ensures NoNul(Plain(Ink(s, attr)))
  {
    ExpandNoNul(s);
    PlainPaint(Expand(s), attr);
  }

  lemma {:induction false} ExpandNoNul(s: Text16)
    requires NoNul(s)
    ensures NoNul(Expand(s))
  {
    if |s| > 0 {
      ExpandNoNul(s[1..]);
    }
  }

  lemma NoNulBefore(cells: seq<Cell>, r: Rendering)
    requires r.Rendered? && NoNul(Plain(cells)) && NoNul(Plain(r.cells))
    ensures NoNul(Plain(Before(cells, r).cells))
  {
    PlainConcat(cells, r.cells);
  }

  lemma {:induction false} RenderNoNul(t: Text16, args: seq<Arg>, attr: Word64, colours: Colours)
    requires NoNul(t) && Render(t, args, attr, colours).Rendered?
    ensures NoNul(Plain(Render(t, args, attr, colours).cells))
    decreases |t|
  {
    if |t| > 0 && t[0] != PERCENT {
      RenderNoNul(t[1..], args, attr, colours);
      InkNoNul([t[0]], attr);
      NoNulBefore(Ink([t[0]], attr), Render(t[1..], args, attr, colours));
    } else if |t| > 0 {
      RenderDirectiveNoNul(t, args, attr, colours);
    }
  }

  lemma {:induction false} RenderDirectiveNoNul(t: Text16, args: seq<Arg>, attr: Word64, colours: Colours)
    requires |t| > 0 && t[0] == PERCENT && NoNul(t) && Render(t, args, attr, colours).Rendered?
    ensures NoNul(Plain(Render(t, args, attr, colours).cells))
    decreases |t|, 0
  {
    var d := Directive(t[1..], NewItem(), args, Pen(attr, 0), colours);
    DirectiveSuffix(t[1..], NewItem(), args, Pen(attr, 0), colours);
    if d.Show? {
      DirectiveClean(t[1..], NewItem(), args, Pen(attr, 0), colours);
      FieldNoNul(d.item, d.text);
      InkNoNul(Field(d.item, d.text), d.pen.attr);
      RenderNoNul(d.rest, d.args, AttrAfter(d.pen), colours);
      NoNulBefore(Ink(Field(d.item, d.text), d.pen.attr), Render(d.rest, d.args, AttrAfter(d.pen), colours));
    } else {
      RenderNoNul(d.rest, d.args, d.attr, colours);
    }
  }

  /** What a directive leaves is the end of what it was given. */
  lemma {:induction false} DirectiveSuffix(t: Text16, item: Item, args: seq<Arg>, pen: Pen, colours: Colours)
    requires !Directive(t, item, args, pen, colours).Incomplete?
    ensures var d := Directive(t, item, args, pen, colours); d.rest == t[|t| - |d.rest|..]
    decreases |t|
  {
    var step := Next(t, item, args, pen, colours);
    if StartsNumber(t[0]) {
      DigitsRead(t);
    }
    assert step.rest == t[|t| - |step.rest|..];
    if step.More? {
      DirectiveSuffix(step.rest, step.item, step.args, step.pen, colours);
    }
  }
}
