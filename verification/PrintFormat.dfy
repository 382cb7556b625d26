/**
 What a format string of bootloader/gnu-efi/lib/print.c means, without any buffering: the characters it
 shows, each with the display attribute it is shown in.

 A format is read from left to right.  Its directives take their values from a list of arguments, may
 change the attribute, and may turn out incomplete: the format ends within a directive, or an argument
 is missing or of the wrong kind.
 */
module PrintFormat {
  import opened Basics
  import opened Digits
  import opened PrintNumbers

  type Text16 = seq<Char16>

  const SPACE: Char16 := ' ' as int
  const NEWLINE: Char16 := 0x0A
  const RETURN: Char16 := 0x0D
  const PERCENT: Char16 := '%' as int

  // ----- characters on the display -----

  datatype Cell = Cell(c: Char16, attr: Word64)

  function Paint(s: Text16, attr: Word64): seq<Cell> {
    if |s| == 0 then [] else [Cell(s[0], attr)] + Paint(s[1..], attr)
  }

  /** The characters without their attributes. */
  function Plain(cells: seq<Cell>): Text16 {
    if |cells| == 0 then [] else [cells[0].c] + Plain(cells[1..])
  }

  lemma {:induction false} PaintConcat(a: Text16, b: Text16, attr: Word64)
    ensures Paint(a + b, attr) == Paint(a, attr) + Paint(b, attr)
    decreases |a|
  {
    if |a| == 0 {
      assert a + b == b;
    } else {
      assert (a + b)[1..] == a[1..] + b;
      PaintConcat(a[1..], b, attr);
    }
  }

  lemma {:induction false} PlainConcat(a: seq<Cell>, b: seq<Cell>)
    ensures Plain(a + b) == Plain(a) + Plain(b)
    decreases |a|
  {
    if |a| == 0 {
      assert a + b == b;
    } else {
      assert (a + b)[1..] == a[1..] + b;
      PlainConcat(a[1..], b);
    }
  }

  lemma {:induction false} PlainPaint(s: Text16, attr: Word64)
    ensures Plain(Paint(s, attr)) == s && |Paint(s, attr)| == |s|
    decreases |s|
  {
    if |s| > 0 {
      PlainPaint(s[1..], attr);
      assert Paint(s, attr)[1..] == Paint(s[1..], attr);
    }
  }

  /** Each newline is shown as a carriage return and a newline. */
  function Expand(s: Text16): Text16 {
    if |s| == 0 then [] else (if s[0] == NEWLINE then [RETURN, NEWLINE] else [s[0]]) + Expand(s[1..])
  }

  lemma {:induction false} ExpandConcat(a: Text16, b: Text16)
    ensures Expand(a + b) == Expand(a) + Expand(b)
    decreases |a|
  {
    if |a| == 0 {
      assert a + b == b;
    } else {
      assert (a + b)[1..] == a[1..] + b;
      ExpandConcat(a[1..], b);
    }
  }

  function Ink(s: Text16, attr: Word64): seq<Cell> {
    Paint(Expand(s), attr)
  }

  lemma InkConcat(a: Text16, b: Text16, attr: Word64)
    ensures Ink(a + b, attr) == Ink(a, attr) + Ink(b, attr)
  {
    ExpandConcat(a, b);
    PaintConcat(Expand(a), Expand(b), attr);
  }

  ghost predicate NoNul(s: Text16) {
    forall i :: 0 <= i < |s| ==> s[i] != 0
  }

  /** A string as its readers see it: up to its terminator. */
  function UpToNul(s: Text16): (r: Text16)
    ensures |r| <= |s| && r == s[..|r|] && NoNul(r) && (|r| < |s| ==> s[|r|] == 0)
  {
    if |s| == 0 || s[0] == 0 then [] else [s[0]] + UpToNul(s[1..])
  }

  lemma UpToNulIs(s: Text16, n: nat)
    requires n < |s| && NoNul(s[..n]) && s[n] == 0
    ensures UpToNul(s) == s[..n]
  {
    var r := UpToNul(s);
    assert forall i :: 0 <= i < |r| ==> r[i] == s[i];
    assert forall i :: 0 <= i < n ==> s[..n][i] == s[i];
    assert |r| == n;
  }

  // ----- fields -----

  /** A field as the directive describes it. */
  datatype Item = Item(
    fieldWidth: Word64, width: Word64,
    parsesField: bool,     // the next number is the field width
    pad: Char16, padBefore: bool, comma: bool, long: bool)

  const NO_FIELD_WIDTH: Word64 := 0xFFFF_FFFF_FFFF_FFFF

  function NewItem(): Item {
    Item(NO_FIELD_WIDTH, 0, false, SPACE, true, false, false)
  }

  function WithWidth(item: Item, w: Word64): Item {
    if item.parsesField then item.(fieldWidth := w) else item.(width := w)
  }

  function Repeat(c: Char16, n: int): (s: Text16)
    ensures |s| == if n < 0 then 0 else n
  {
    if n <= 0 then [] else Repeat(c, n - 1) + [c]
  }

  lemma {:induction false} RepeatAll(c: Char16, n: int)
    ensures forall i :: 0 <= i < |Repeat(c, n)| ==> Repeat(c, n)[i] == c
    decreases n
  {
    if n > 0 {
      RepeatAll(c, n - 1);
    }
  }

  function Truncated(s: Text16, n: nat): Text16 {
    if |s| <= n then s else s[..n]
  }

  function Max(a: int, b: int): int {
    if a >= b then a else b
  }

  /** The text in its field: cut to the field width, padded to the width with the pad character in front,
      and filled to the field width with blanks on one side. */
  function Field(item: Item, text: Text16): Text16 {
    var shown := Truncated(text, item.fieldWidth);
    var fieldWidth := if item.fieldWidth == NO_FIELD_WIDTH then |shown| else item.fieldWidth;
    Laid(item.padBefore, item.pad, shown, Max(item.width, |shown|), fieldWidth)
  }

  function Laid(before: bool, pad: Char16, shown: Text16, width: nat, fieldWidth: nat): Text16 {
    var blanks := Repeat(SPACE, fieldWidth - width);
    var padded := Repeat(pad, width - |shown|) + shown;
    if before then blanks + padded else padded + blanks
  }

  /** How much a field is filled with blanks beyond its width. */
  function Blanks(item: Item, width: nat): nat {
    if item.fieldWidth == NO_FIELD_WIDTH then 0 else Max(item.fieldWidth - width, 0)
  }

  /** In f, from start on, there are the pad character, up to at, and the text; all else is blank. */
  ghost predicate Shaped(f: Text16, start: nat, pad: Char16, at: nat, text: Text16) {
    && start <= at && at + |text| <= |f|
    && (forall i :: start <= i < at ==> f[i] == pad)
    && f[at..at + |text|] == text
    && (forall i :: 0 <= i < |f| && !(start <= i < at + |text|) ==> f[i] == SPACE)
  }

  lemma ShapedParts(blanks: Text16, padding: Text16, text: Text16, pad: Char16)
    requires (forall i :: 0 <= i < |blanks| ==> blanks[i] == SPACE) && (forall i :: 0 <= i < |padding| ==> padding[i] == pad)
    ensures Shaped(blanks + (padding + text), |blanks|, pad, |blanks| + |padding|, text)
    ensures Shaped((padding + text) + blanks, 0, pad, |padding|, text)
  {
    var f, g := blanks + (padding + text), (padding + text) + blanks;
    assert f[|blanks| + |padding|..|blanks| + |padding| + |text|] == text;
    assert g[|padding|..|padding| + |text|] == text;
  }

  /** A field shows its text whole unless the field width cuts it.  The pad character fills the width, and always
      stands directly before the text; only the blanks that fill the field width stand on one side or the other. */
  lemma FieldShape(item: Item, text: Text16)
    requires |text| < NO_FIELD_WIDTH
    ensures var f, shown := Field(item, text), Truncated(text, item.fieldWidth);
            var width := Max(item.width, |shown|);
            var blanks := Blanks(item, width);
            var start := if item.padBefore then blanks else 0;
            && (item.fieldWidth == NO_FIELD_WIDTH ==> shown == text)
            && |f| == width + blanks && Shaped(f, start, item.pad, start + width - |shown|, shown)
  {
    var shown := Truncated(text, item.fieldWidth);
    var fieldWidth := if item.fieldWidth == NO_FIELD_WIDTH then |shown| else item.fieldWidth;
    var width := Max(item.width, |shown|);
    RepeatAll(SPACE, fieldWidth - width);
    RepeatAll(item.pad, width - |shown|);
    ShapedParts(Repeat(SPACE, fieldWidth - width), Repeat(item.pad, width - |shown|), shown, item.pad);
  }

  // ----- arguments -----

  datatype Arg = Value(v: Word64) | String(s: Text16) | NullString

  function Low(v: Word64, long: bool): Word64 {
    if long then v else v % 0x1_0000_0000
  }

  /** The value as a signed integer of its width. */
  function SignedLow(v: Word64, long: bool): (r: int)
    ensures -TWO63 <= r < TWO63
  {
    var low := Low(v, long);
    if long then (if low < TWO63 then low else low - TWO64)
    else if low < 0x8000_0000 then low else low - 0x1_0000_0000
  }

  /** Unsigned values pass through a signed 64-bit parameter. */
  function UnsignedLow(v: Word64, long: bool): (r: int)
    ensures -TWO63 <= r < TWO63
  {
    if long then SignedLow(v, true) else Low(v, false)
  }

  function Null(): Text16 {
    ['(' as int, 'n' as int, 'u' as int, 'l' as int, 'l' as int, ')' as int]
  }

  predicate TakesText(c: Char16) {
    c == 'a' as int || c == 's' as int || PreRendered(c)
  }

  /** Device paths, floating point, identifiers, status codes and times are rendered elsewhere. */
  predicate PreRendered(c: Char16) {
    c == 'D' as int || c == 'f' as int || c == 'g' as int || c == 'r' as int || c == 't' as int
  }

  predicate TakesNumber(c: Char16) {
    c == 'd' as int || c == 'u' as int || TakesHex(c)
  }

  predicate TakesHex(c: Char16) {
    c == 'x' as int || c == 'X' as int || c == 'p' as int
  }

  function NumberText(c: Char16, item: Item, v: Word64): Text16
    requires TakesNumber(c)
  {
    if c == 'd' as int then SignedText(SignedLow(v, item.long), item.comma)
    else if c == 'u' as int then SignedText(UnsignedLow(v, item.long), item.comma)
    else if c == 'p' as int then ['0' as int, 'x' as int] + Text(16, Low(v, item.long))
    else Text(16, Low(v, item.long))
  }

  /** Fixed-width hex sets its own width and pad; the width that a pointer sets is 0, as sizeof(void *) is
      compared with (8 ? 16 : 8) + 2. */
  function NumberItem(c: Char16, item: Item): Item {
    if c == 'X' as int then item.(width := if item.long then 16 else 8, pad := '0' as int)
    else if c == 'p' as int then item.(width := 0, pad := '0' as int)
    else item
  }

  const ITEM_TEXT_LEN := 99

  function StringText(c: Char16, a: Arg): Text16
    requires TakesText(c) && !a.Value?
  {
    if a.NullString? then Null()
    else if c == 'D' as int then UpToNul(Truncated(a.s, ITEM_TEXT_LEN))
    else UpToNul(a.s)
  }

  // ----- directives -----

  datatype Colours = Colours(normal: Word64, highlight: Word64, error: Word64)

  /** The attribute in use, and the one to return to after the field; 0 stands for none. */
  datatype Pen = Pen(attr: Word64, restore: Word64)

  predicate FieldColour(c: Char16) {
    c == 'n' as int || c == 'h' as int || c == 'e' as int
  }

  predicate LastingColour(c: Char16) {
    c == 'N' as int || c == 'H' as int || c == 'E' as int
  }

  function ColourOf(c: Char16, colours: Colours): Word64 {
    if c == 'n' as int || c == 'N' as int then colours.normal
    else if c == 'h' as int || c == 'H' as int then colours.highlight
    else colours.error
  }

  predicate Modifier(c: Char16) {
    c == ',' as int || c == '-' as int || c == '.' as int || c == '0' as int || c == 'l' as int
  }

  function Modified(c: Char16, item: Item): Item
    requires Modifier(c)
  {
    if c == ',' as int then item.(comma := true)
    else if c == '-' as int then item.(padBefore := false)
    else if c == '.' as int then item.(parsesField := true)
    else if c == '0' as int then item.(pad := '0' as int)
    else item.(long := true)
  }

  predicate Digit(c: Char16) {
    '0' as int <= c <= '9' as int
  }

  function AfterDigits(t: Text16): (r: Text16)
    ensures |r| <= |t| && (|t| > 0 && Digit(t[0]) ==> |r| < |t|)
  {
    if |t| > 0 && Digit(t[0]) then AfterDigits(t[1..]) else t
  }

  /** The number that leading digits continue, kept in 64 bits. */
  function Number(acc: Word64, t: Text16): Word64
    decreases |t|
  {
    if |t| > 0 && Digit(t[0]) then Number(Mod64(acc * 10 + (t[0] - '0' as int)), t[1..]) else acc
  }

  /** What one character of a directive does. */
  datatype Step =
    | More(rest: Text16, item: Item, args: seq<Arg>, pen: Pen)                  // the directive goes on
    | Show(rest: Text16, item: Item, args: seq<Arg>, pen: Pen, text: Text16)    // it ends with a field
    | Recolour(rest: Text16, args: seq<Arg>, attr: Word64)                      // it ends with an attribute
    | Incomplete

  /** A character that takes a number from the arguments. */
  function NextNumber(c: Char16, rest: Text16, item: Item, args: seq<Arg>, pen: Pen): (r: Step)
    requires c == '*' as int || c == 'c' as int || TakesNumber(c)
    ensures !r.Recolour? && (!r.Incomplete? ==> r.rest == rest)
  {
    if |args| == 0 || !args[0].Value? then Incomplete
    else if c == '*' as int then More(rest, WithWidth(item, args[0].v), args[1..], pen)
    else if c == 'c' as int then Show(rest, item, args[1..], pen, UpToNul([args[0].v % 0x1_0000]))
    else Show(rest, NumberItem(c, item), args[1..], pen, NumberText(c, item, args[0].v))
  }

  /** A character that takes a text from the arguments, or none. */
  function NextText(c: Char16, rest: Text16, item: Item, args: seq<Arg>, pen: Pen): (r: Step)
    ensures r.Show? || r.Incomplete?
    ensures r.Show? ==> r.rest == rest
  {
    if !TakesText(c) then Show(rest, item, args, pen, [if c == PERCENT then PERCENT else '?' as int])
    else if |args| == 0 || args[0].Value? || (PreRendered(c) && args[0].NullString?) then Incomplete
    else Show(rest, item, args[1..], pen, StringText(c, args[0]))
  }

  predicate Colour(c: Char16) {
    FieldColour(c) || LastingColour(c)
  }

  function NextColour(c: Char16, rest: Text16, item: Item, args: seq<Arg>, pen: Pen, colours: Colours): (r: Step)
    requires Colour(c)
    ensures (r.More? || r.Recolour?) && r.rest == rest
  {
    if FieldColour(c) then More(rest, item, args, Pen(ColourOf(c, colours), pen.attr))
    else if ColourOf(c, colours) != 0 then Recolour(rest, args, ColourOf(c, colours))
    else More(rest, item, args, pen)
  }

  predicate StartsNumber(c: Char16) {
    Digit(c) && !Modifier(c)
  }

  function NextOther(c: Char16, rest: Text16, item: Item, args: seq<Arg>, pen: Pen, colours: Colours): (r: Step)
    ensures !r.Incomplete? ==> r.rest == rest
  {
    if Modifier(c) then More(rest, Modified(c, item), args, pen)
    else if Colour(c) then NextColour(c, rest, item, args, pen, colours)
    else if c == '*' as int || c == 'c' as int || TakesNumber(c) then NextNumber(c, rest, item, args, pen)
    else NextText(c, rest, item, args, pen)
  }

  function Next(t: Text16, item: Item, args: seq<Arg>, pen: Pen, colours: Colours): (r: Step)
    requires |t| > 0
    ensures !r.Incomplete? ==> |r.rest| < |t|
  {
    if StartsNumber(t[0]) then More(AfterDigits(t), WithWidth(item, Number(0, t)), args, pen)
    else NextOther(t[0], t[1..], item, args, pen, colours)
  }

  /** What a whole directive does, from the character after its percent sign on. */
  function Directive(t: Text16, item: Item, args: seq<Arg>, pen: Pen, colours: Colours): (r: Step)
    ensures !r.More? && (!r.Incomplete? ==> |r.rest| < |t|)
    decreases |t|
  {
    if |t| == 0 then Incomplete
    else
      var step := Next(t, item, args, pen, colours);
      if step.More? then Directive(step.rest, step.item, step.args, step.pen, colours) else step
  }

  // ----- formats -----

  datatype Rendering = Unfinished | Rendered(cells: seq<Cell>, attr: Word64, args: seq<Arg>)

  function Before(cells: seq<Cell>, r: Rendering): Rendering {
    if r.Unfinished? then r else r.(cells := cells + r.cells)
  }

  function AttrAfter(pen: Pen): Word64 {
    if pen.restore != 0 then pen.restore else pen.attr
  }

  /** What a format shows, the attribute it leaves, and the arguments it leaves. */
  function Render(t: Text16, args: seq<Arg>, attr: Word64, colours: Colours): Rendering
    decreases |t|
  {
    if |t| == 0 then Rendered([], attr, args)
    else if t[0] != PERCENT then Before(Ink([t[0]], attr), Render(t[1..], args, attr, colours))
    else
      match Directive(t[1..], NewItem(), args, Pen(attr, 0), colours)
      case Show(rest, item, args', pen, text) =>
        Before(Ink(Field(item, text), pen.attr), Render(rest, args', AttrAfter(pen), colours))
      case Recolour(rest, args', attr') => Render(rest, args', attr', colours)
      case Incomplete => Unfinished
  }
}
