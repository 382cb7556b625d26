/**
 The formatted printer of bootloader/gnu-efi/lib/print.c: characters are collected in a buffer of 200
 slots, which is handed to the output function whenever it is full, before every change of the display
 attribute, and at the end.

 The calls of the output function are recorded in order.  The result is that the buffer cannot be seen:
 the characters of all calls together, each with the attribute in force at its call, are those that the
 format shows without buffering.
 */
module Printer {
  import opened Basics
  import opened Digits
  import opened PrintNumbers
  import opened PrintFormat
  import opened PrintLaws

  const PRINT_STRING_LEN := 200
  const END := 199

  /** A call of the output function: the string it is given, and the attribute in force. */
  datatype Chunk = Chunk(text: Text16, attr: Word64)

  /** What the calls show. */
  function Cells(log: seq<Chunk>): seq<Cell> {
    if |log| == 0 then [] else Cells(log[..|log| - 1]) + Paint(log[|log| - 1].text, log[|log| - 1].attr)
  }

  lemma CellsAppend(log: seq<Chunk>, k: Chunk)
    ensures Cells(log + [k]) == Cells(log) + Paint(k.text, k.attr)
  {
    assert (log + [k])[..|log|] == log;
  }

  /** Every call is given at most a buffer, without a terminator inside. */
  ghost predicate Clean(log: seq<Chunk>) {
    forall i :: 0 <= i < |log| ==> NoNul(log[i].text) && |log[i].text| <= END
  }

  /** Every call is given a full buffer. */
  ghost predicate AllFull(log: seq<Chunk>) {
    forall i :: 0 <= i < |log| ==> |log[i].text| == END
  }

  /** What has been shown is what the calls so far and the characters waiting in the buffer show. */
  ghost predicate Holds(log: seq<Chunk>, waiting: Text16, attr: Word64, shown: seq<Cell>) {
    NoNul(waiting) && Clean(log) && shown == Cells(log) + Paint(waiting, attr)
  }

  lemma HoldsFlush(log: seq<Chunk>, waiting: Text16, attr: Word64, shown: seq<Cell>)
    requires Holds(log, waiting, attr, shown) && |waiting| <= END
    ensures Holds(log + [Chunk(waiting, attr)], [], attr, shown)
    ensures shown == Cells(log + [Chunk(waiting, attr)])
  {
    CellsAppend(log, Chunk(waiting, attr));
  }

  lemma HoldsNothing(log: seq<Chunk>, attr: Word64, attr': Word64, shown: seq<Cell>)
    requires Holds(log, [], attr, shown)
    ensures Holds(log, [], attr', shown)
  {}

  lemma HoldsPut(log: seq<Chunk>, waiting: Text16, attr: Word64, shown: seq<Cell>, c: Char16)
    requires Holds(log, waiting, attr, shown) && c != 0
    ensures Holds(log, waiting + [c], attr, shown + [Cell(c, attr)])
  {
    PaintConcat(waiting, [c], attr);
    PaintOne(c, attr);
  }

  /** How a directive goes on after a character: open, ended by a string to show, or by an attribute. */
  datatype Ending = Open | Shows(s: Text16) | Attribute(attr: Word64)

  class PrintState {
    // the format, zero terminated, and the arguments still to take
    const fmt: Text16
    var index: nat
    var args: seq<Arg>

    // the output
    const buffer: array<Char16>
    var pos: nat
    var len: nat
    var log: seq<Chunk>

    var attr: Word64
    var restoreAttr: Word64
    const colours: Colours

    ghost var shown: seq<Cell>

    constructor (fmt: Text16, args: seq<Arg>, attr: Word64, colours: Colours)
      requires ZeroTerminated(fmt)
      ensures this.fmt == fmt && this.args == args && this.attr == attr && this.colours == colours
      ensures Valid() && shown == [] && log == [] && index == 0 && fresh(buffer)
    {
      this.fmt, this.args, this.attr, this.colours := fmt, args, attr, colours;
      index, pos, len, log, restoreAttr, shown := 0, 0, 0, [], 0, [];
      buffer := new Char16[PRINT_STRING_LEN];
    }

    /** The position never passes the end of the buffer, and what has been shown is known. */
    ghost predicate Buffered()
      reads this, buffer
    {
      && buffer.Length == PRINT_STRING_LEN
      && pos <= END && Holds(log, buffer[..pos], attr, shown)
      && len == |shown|
    }

    /** Between operations there is room in the buffer. */
    ghost predicate Valid()
      reads this, buffer
    {
      Buffered() && pos < END && ZeroTerminated(fmt) && index <= |fmt|
    }

    /** The part of the format still to read. */
    function Rest(): Text16
      requires index < |fmt|
      reads this
    {
      fmt[index..|fmt| - 1]
    }

    function Pen(): Pen
      reads this
    {
      PrintFormat.Pen.Pen(attr, restoreAttr)
    }

    /** The string that the output function finds in the buffer. */
    method Terminate() returns (text: Text16)
      requires buffer.Length == PRINT_STRING_LEN && pos <= END && NoNul(buffer[..pos])
      modifies buffer
      ensures text == old(buffer[..pos])
    {
      ghost var waiting := buffer[..pos];
      buffer[pos] := 0;
      assert buffer[..][..pos] == waiting;
      UpToNulIs(buffer[..], pos);
      text := UpToNul(buffer[..]);
    }

    /** The buffer is handed over and is then empty. */
    method PFlush()
      requires Buffered()
      modifies this`pos, this`log, buffer
      ensures Buffered() && pos == 0 && shown == Cells(log)
      ensures log == old(log) + [Chunk(old(buffer[..pos]), attr)]
      ensures buffer[..pos] == []
    {
      HoldsFlush(log, buffer[..pos], attr, shown);
      var text := Terminate();
      log := log + [Chunk(text, attr)];
      pos := 0;
      assert buffer[..pos] == [];
    }

    /** The buffer is flushed first, so what waits in it keeps its attribute. */
    method PSetAttr(newAttr: Word64)
      requires Valid()
      modifies this`pos, this`log, this`attr, this`restoreAttr, buffer
      ensures Valid() && pos == 0 && attr == newAttr && restoreAttr == old(attr)
    {
      PFlush();
      ChangeAttr(newAttr);
    }

    /** With an empty buffer the attribute may change. */
    method ChangeAttr(newAttr: Word64)
      requires Valid() && pos == 0
      modifies this`attr, this`restoreAttr
      ensures Valid() && attr == newAttr && restoreAttr == old(attr)
    {
      assert buffer[..pos] == [];
      HoldsNothing(log, attr, newAttr, shown);
      restoreAttr := attr;
      attr := newAttr;
    }

    /** Stores one character; the buffer may be full afterwards. */
    method Append(c: Char16)
      requires Valid() && c != 0
      modifies this`pos, this`len, this`shown, buffer
      ensures Buffered() && pos == old(pos) + 1 && shown == old(shown) + [Cell(c, attr)]
    {
      ghost var waiting := buffer[..pos];
      HoldsPut(log, waiting, attr, shown, c);
      buffer[pos] := c;
      pos := pos + 1;
      len := len + 1;
      shown := shown + [Cell(c, attr)];
      assert buffer[..pos] == waiting + [c];
    }

    /** Stores one character and flushes the buffer when it is full. */
    method Store(c: Char16)
      requires Valid() && c != 0
      modifies this`pos, this`len, this`log, this`shown, buffer
      ensures Valid() && shown == old(shown) + [Cell(c, attr)]
      ensures old(AllFull(log)) ==> AllFull(log)
    {
      Append(c);
      if pos >= END {
        PFlush();
      }
    }

    method PPutc(c: Char16)
      requires Valid() && c != 0
      modifies this`pos, this`len, this`log, this`shown, buffer
      ensures Valid() && shown == old(shown) + Ink([c], attr)
      ensures old(AllFull(log)) ==> AllFull(log)
      decreases c == NEWLINE
    {
      InkOne(c, attr);
      if c == NEWLINE {
        InkOne(RETURN, attr);
        PPutc(RETURN);
      }
      Store(c);
    }

    /** Puts a character for every count from i0 up to n. */
    method PutMany(c: Char16, i0: nat, n: nat)
      requires Valid() && c != 0
      modifies this`pos, this`len, this`log, this`shown, buffer
      ensures Valid() && shown == old(shown) + Ink(Repeat(c, n - i0), attr)
      ensures old(AllFull(log)) ==> AllFull(log)
    {
      var i := i0;
      assert Ink(Repeat(c, 0), attr) == [];
      while i < n
        invariant Valid() && i0 <= i && (i <= n || i == i0)
        invariant shown == old(shown) + Ink(Repeat(c, i - i0), attr) && (old(AllFull(log)) ==> AllFull(log))
        decreases n - i
      {
        InkRepeat(old(shown), c, i - i0, attr);
        PPutc(c);
        i := i + 1;
      }
    }

    method PutText(s: Text16, n: nat)
      requires Valid() && n <= |s| && NoNul(s[..n])
      modifies this`pos, this`len, this`log, this`shown, buffer
      ensures Valid() && shown == old(shown) + Ink(s[..n], attr)
      ensures old(AllFull(log)) ==> AllFull(log)
    {
      var i := 0;
      assert s[..0] == [] && Ink([], attr) == [];
      while i < n
        invariant Valid() && i <= n && shown == old(shown) + Ink(s[..i], attr) && (old(AllFull(log)) ==> AllFull(log))
      {
        assert s[..n][i] == s[i];
        PPutc(s[i]);
        InkNext(s, i, attr);
        i := i + 1;
      }
    }

    /** Puts padding, the first n characters of a string, and blanks on one side. */
    method PutField(before: bool, pad: Char16, s: Text16, n: nat, width: nat, fieldWidth: nat)
      requires Valid() && pad != 0 && n <= |s| && NoNul(s[..n])
      modifies this`pos, this`len, this`log, this`shown, buffer
      ensures Valid() && shown == old(shown) + Ink(Laid(before, pad, s[..n], width, fieldWidth), attr)
      ensures old(AllFull(log)) ==> AllFull(log)
    {
      InkLaid(shown, before, pad, s[..n], width, fieldWidth, attr);
      if before {
        PutMany(SPACE, width, fieldWidth);
        PutMany(pad, n, width);
        PutText(s, n);
      } else {
        PutMany(pad, n, width);
        PutText(s, n);
        PutMany(SPACE, width, fieldWidth);
      }
    }

    /** Shows a string in its field. */
    method PItem(item: Item, s: Text16)
      requires Valid() && 0 in s && item.pad != 0
      modifies this`pos, this`len, this`log, this`shown, buffer
      ensures Valid() && shown == old(shown) + Ink(Field(item, UpToNul(s)), attr)
      ensures old(AllFull(log)) ==> AllFull(log)
    {
      var n := ItemLength(s, item.fieldWidth);
      var fieldWidth := if item.fieldWidth == NO_FIELD_WIDTH then n else item.fieldWidth;
      var width := Max(item.width, n);
      PutField(item.padBefore, item.pad, s, n, width, fieldWidth);
    }

    // ----- reading the format -----

    method PGetc() returns (c: Char16)
      requires index < |fmt|
      modifies this`index
      ensures index == old(index) + 1 && c == fmt[old(index)]
    {
      c := fmt[index];
      index := index + 1;
    }

    /** Reads the rest of a number whose first digit has been read. */
    method ParseNumber(c0: Char16) returns (w: Word64)
      requires ZeroTerminated(fmt) && 0 < index < |fmt| && Digit(c0) && fmt[index - 1] == c0
      modifies this`index
      ensures index < |fmt| && Rest() == AfterDigits(old(fmt[index - 1..|fmt| - 1]))
      ensures w == Number(0, old(fmt[index - 1..|fmt| - 1]))
    {
      var c := c0;
      w := 0;
      ghost var t := fmt[index - 1..|fmt| - 1];
      while true
        invariant 0 < index < |fmt| && fmt[index - 1] == c && Digit(c)
        invariant AfterDigits(fmt[index - 1..|fmt| - 1]) == AfterDigits(t)
        invariant Number(w, fmt[index - 1..|fmt| - 1]) == Number(0, t)
        decreases |fmt| - index
      {
        ghost var here := fmt[index - 1..|fmt| - 1];
        assert here[0] == c && here[1..] == fmt[index..|fmt| - 1];
        w := Mod64(w * 10 + (c - '0' as int));
        c := PGetc();
        if !Digit(c) {
          break;
        }
      }
      index := index - 1;
      assert |Rest()| > 0 ==> Rest()[0] == c;
    }

    /** The state agrees with what the format's meaning says of one character. */
    ghost predicate Took(step: Step, item: Item, ending: Ending)
      reads this
    {
      && index < |fmt|
      && match step {
           case More(rest, item', args', pen) =>
             ending.Open? && rest == Rest() && item' == item && args' == args && pen == Pen()
           case Show(rest, item', args', pen, text) =>
             ending.Shows? && rest == Rest() && item' == item && args' == args && pen == Pen()
             && 0 in ending.s && UpToNul(ending.s) == text
           case Recolour(rest, args', attr') =>
             ending == Attribute(attr') && rest == Rest() && args' == args
           case Incomplete => false
         }
    }

    /** Takes the next argument. */
    method VaArg() returns (a: Arg)
      requires |args| > 0
      modifies this`args
      ensures old(args) == [a] + args && args == old(args)[1..]
    {
      a := args[0];
      args := args[1..];
    }

    method SwitchNumber(c: Char16, item0: Item) returns (item: Item, ending: Ending)
      requires index < |fmt| && (c == '*' as int || c == 'c' as int || TakesNumber(c))
      requires !NextNumber(c, Rest(), item0, args, Pen()).Incomplete?
      modifies this`args
      ensures Took(old(NextNumber(c, Rest(), item0, args, Pen())), item, ending)
      ensures item0.pad != 0 ==> item.pad != 0
    {
      var a := VaArg();
      if c == '*' as int {
        item, ending := WithWidth(item0, a.v), Open;
      } else if c == 'c' as int {
        item, ending := item0, Shows([a.v % 0x1_0000, 0]);
        CharString(a.v % 0x1_0000);
      } else {
        item := NumberItem(c, item0);
        var s := NumberString(c, item0, a.v);
        ending := Shows(s);
      }
    }

    method SwitchText(c: Char16, item: Item) returns (ending: Ending)
      requires index < |fmt| && !NextText(c, Rest(), item, args, Pen()).Incomplete?
      modifies this`args
      ensures Took(old(NextText(c, Rest(), item, args, Pen())), item, ending)
    {
      if TakesText(c) {
        var a := VaArg();
        ending := Shows(StringItem(c, a));
        StringItemText(c, a);
      } else {
        ending := Shows([if c == PERCENT then PERCENT else '?' as int, 0]);
        CharString(if c == PERCENT then PERCENT else '?' as int);
      }
    }

    method SwitchColour(c: Char16, item: Item) returns (ending: Ending)
      requires Valid() && index < |fmt| && Colour(c)
      modifies this`pos, this`log, this`attr, this`restoreAttr, buffer
      ensures Valid()
      ensures Took(old(NextColour(c, Rest(), item, args, Pen(), colours)), item, ending)
      ensures !FieldColour(c) ==> log == old(log)
    {
      var colour := ColourOf(c, colours);
      ending := Open;
      if FieldColour(c) {
        PSetAttr(colour);
      } else if colour != 0 {
        ending := Attribute(colour);
      }
    }

    /** Acts on one character of a directive, which has just been read. */
    method Switch(c: Char16, item0: Item) returns (item: Item, ending: Ending)
      requires Valid() && 0 < index < |fmt| && c == fmt[index - 1] && item0.pad != 0
      requires !Next([c] + Rest(), item0, args, Pen(), colours).Incomplete?
      modifies this`index, this`args, this`pos, this`log, this`attr, this`restoreAttr, buffer
      ensures Valid() && item.pad != 0
      ensures Took(old(Next([c] + Rest(), item0, args, Pen(), colours)), item, ending)
      ensures !FieldColour(c) ==> log == old(log)
    {
      ghost var t := [c] + Rest();
      assert t == fmt[index - 1..|fmt| - 1] && t[0] == c && t[1..] == Rest();
      if StartsNumber(c) {
        var w := ParseNumber(c);
        item, ending := WithWidth(item0, w), Open;
      } else if Modifier(c) {
        item, ending := Modified(c, item0), Open;
      } else if Colour(c) {
        item := item0;
        ending := SwitchColour(c, item);
      } else if c == '*' as int || c == 'c' as int || TakesNumber(c) {
        item, ending := SwitchNumber(c, item0);
      } else {
        item := item0;
        ending := SwitchText(c, item);
      }
    }

    method ReadAndSwitch(item0: Item) returns (item: Item, ending: Ending)
      requires Valid() && index < |fmt| && item0.pad != 0 && |Rest()| > 0
      requires !Next(Rest(), item0, args, Pen(), colours).Incomplete?
      modifies this`index, this`args, this`pos, this`log, this`attr, this`restoreAttr, buffer
      ensures Valid() && item.pad != 0
      ensures Took(old(Next(Rest(), item0, args, Pen(), colours)), item, ending)
      ensures old(index) < index && (!FieldColour(old(Rest())[0]) ==> log == old(log))
    {
      ghost var t := Rest();
      var c := PGetc();
      assert t == [c] + Rest();
      item, ending := Switch(c, item0);
    }

    /** Reads a directive to its end; without field colours nothing is flushed. */
    method ParseDirective() returns (item: Item, ending: Ending)
      requires Valid() && index < |fmt|
      requires !Directive(Rest(), NewItem(), args, Pen(), colours).Incomplete?
      modifies this`index, this`args, this`pos, this`log, this`attr, this`restoreAttr, buffer
      ensures Valid() && item.pad != 0 && !ending.Open?
      ensures Took(old(Directive(Rest(), NewItem(), args, Pen(), colours)), item, ending)
      ensures Quiet(old(Rest()), Rest()) ==> log == old(log)
    {
      item := NewItem();
      ghost var t, d := Rest(), Directive(Rest(), item, args, Pen(), colours);
      while true
        invariant Valid() && old(index) <= index < |fmt| && item.pad != 0
        invariant Directive(Rest(), item, args, Pen(), colours) == d
        invariant Quiet(t, Rest()) ==> log == old(log)
        decreases |fmt| - index
      {
        ghost var middle := Rest();
        item, ending := ReadAndSwitch(item);
        QuietStep(t, middle, Rest());
        if !ending.Open? {
          break;
        }
      }
    }

    /** Reads a directive and does what it says. */
    method DoDirective()
      requires Valid() && index < |fmt|
      requires !Directive(Rest(), NewItem(), args, PrintFormat.Pen.Pen(attr, 0), colours).Incomplete?
      modifies this, buffer
      ensures Valid() && index < |fmt|
      ensures match old(Directive(Rest(), NewItem(), args, PrintFormat.Pen.Pen(attr, 0), colours)) {
                case Show(rest, item, args', pen, text) =>
                  rest == Rest() && args == args' && attr == AttrAfter(pen)
                  && shown == old(shown) + Ink(Field(item, text), pen.attr)
                case Recolour(rest, args', attr') =>
                  rest == Rest() && args == args' && attr == attr' && shown == old(shown)
                case _ => false
              }
      ensures old(Directive(Rest(), NewItem(), args, PrintFormat.Pen.Pen(attr, 0), colours).Show? && AllFull(log)) ==>
                Quiet(old(Rest()), Rest()) ==> AllFull(log)
    {
      restoreAttr := 0;
      if Directive(Rest(), NewItem(), args, Pen(), colours).Show? && Quiet(Rest(), Directive(Rest(), NewItem(), args, Pen(), colours).rest) {
        QuietPen(Rest(), args, attr, colours);
      }
      var item, ending := ParseDirective();
      match ending {
        case Shows(s) =>
          PItem(item, s);
        case Attribute(newAttr) =>
          PSetAttr(newAttr);
          restoreAttr := 0;
      }
      if restoreAttr != 0 {
        PSetAttr(restoreAttr);
      }
    }

    /** What the whole run shows, once the rest of the format has been printed too. */
    ghost function Whole(): Rendering
      requires index < |fmt|
      reads this
    {
      Before(shown, Render(Rest(), args, attr, colours))
    }

    /** Prints a character of the format, or the directive that it starts. */
    method PrintNext(c: Char16)
      requires Valid() && 0 < index < |fmt| && c == fmt[index - 1] && c != 0
      requires Before(shown, Render([c] + Rest(), args, attr, colours)).Rendered?
      modifies this, buffer
      ensures Valid() && old(index) <= index < |fmt|
      ensures Whole() == old(Before(shown, Render([c] + Rest(), args, attr, colours)))
      ensures old(Uncoloured([c] + Rest(), args, attr, colours) && AllFull(log)) ==>
                Uncoloured(Rest(), args, attr, colours) && AllFull(log)
    {
      ghost var t := [c] + Rest();
      assert t[0] == c && t[1..] == Rest();
      if c != PERCENT {
        BeforeConcat(shown, Ink([c], attr), Render(Rest(), args, attr, colours));
        PPutc(c);
      } else {
        ghost var d := Directive(Rest(), NewItem(), args, PrintFormat.Pen.Pen(attr, 0), colours);
        ghost var was := shown;
        DoDirective();
        if d.Show? {
          BeforeConcat(was, Ink(Field(d.item, d.text), d.pen.attr), Render(Rest(), args, attr, colours));
        }
      }
    }

    /** The main loop: everything has been printed, though some of it may wait in the buffer. */
    method PrintAll()
      requires Valid() && index == 0 && shown == [] && log == []
      requires Render(fmt[..|fmt| - 1], args, attr, colours).Rendered?
      modifies this, buffer
      ensures Valid()
      ensures old(Uncoloured(fmt[..|fmt| - 1], args, attr, colours)) ==> AllFull(log)
      ensures old(Render(fmt[..|fmt| - 1], args, attr, colours)) == Rendered(shown, attr, args)
    {
      ghost var r := Render(fmt[..|fmt| - 1], args, attr, colours);
      assert Rest() == fmt[..|fmt| - 1];
      while true
        invariant Valid() && index < |fmt| && Whole() == r
        invariant old(Uncoloured(fmt[..|fmt| - 1], args, attr, colours)) ==>
                    Uncoloured(Rest(), args, attr, colours) && AllFull(log)
        decreases |fmt| - index
      {
        ghost var t := Rest();
        var c := PGetc();
        if c == 0 {
          assert t == [];
          break;
        }
        assert t == [c] + Rest();
        PrintNext(c);
      }
    }

    /** Prints the whole format: the calls of the output function show exactly what the format means, and
        the length returned is the number of characters they show.  Without colours all calls but the last are
        given a full buffer. */
    method Print() returns (n: nat)
      requires Valid() && index == 0 && shown == [] && log == []
      requires Render(fmt[..|fmt| - 1], args, attr, colours).Rendered?
      modifies this, buffer
      ensures Valid() && Clean(log) && |log| > 0 && n == |Cells(log)|
      ensures old(Render(fmt[..|fmt| - 1], args, attr, colours)) == Rendered(Cells(log), attr, args)
      ensures |log[|log| - 1].text| < END
      ensures old(Uncoloured(fmt[..|fmt| - 1], args, attr, colours)) ==> AllFull(log[..|log| - 1])
    {
      PrintAll();
      PFlush();
      n := len;
    }
  }

  lemma PaintOne(c: Char16, attr: Word64)
    ensures Paint([c], attr) == [Cell(c, attr)]
  {
    assert [c][1..] == [];
  }

  lemma InkOne(c: Char16, attr: Word64)
    ensures Ink([c], attr) == (if c == NEWLINE then [Cell(RETURN, attr)] else []) + [Cell(c, attr)]
  {
    assert [c][1..] == [];
    PaintOne(c, attr);
    if c == NEWLINE {
      PaintOne(RETURN, attr);
      PaintConcat([RETURN], [NEWLINE], attr);
      assert Expand([c]) == [RETURN] + [NEWLINE];
    } else {
      assert Expand([c]) == [c];
    }
  }

  lemma InkRepeat(before: seq<Cell>, c: Char16, k: nat, attr: Word64)
    ensures before + Ink(Repeat(c, k + 1), attr) == (before + Ink(Repeat(c, k), attr)) + Ink([c], attr)
  {
    InkConcat(Repeat(c, k), [c], attr);
    ConcatAssociative(before, Ink(Repeat(c, k), attr), Ink([c], attr));
  }

  lemma InkNext(s: Text16, i: nat, attr: Word64)
    requires i < |s|
    ensures Ink(s[..i + 1], attr) == Ink(s[..i], attr) + Ink([s[i]], attr)
  {
    InkConcat(s[..i], [s[i]], attr);
    assert s[..i + 1] == s[..i] + [s[i]];
  }

  lemma InkField(before: seq<Cell>, blanks: Text16, padding: Text16, text: Text16, attr: Word64)
    ensures before + Ink(blanks + (padding + text), attr) == before + Ink(blanks, attr) + Ink(padding, attr) + Ink(text, attr)
    ensures before + Ink((padding + text) + blanks, attr) == before + Ink(padding, attr) + Ink(text, attr) + Ink(blanks, attr)
  {
    InkConcat(padding, text, attr);
    InkConcat(blanks, padding + text, attr);
    InkConcat(padding + text, blanks, attr);
    Regroup(before, Ink(blanks, attr), Ink(padding, attr), Ink(text, attr));
    Regroup(before, Ink(padding, attr), Ink(text, attr), Ink(blanks, attr));
  }

  lemma InkLaid(start: seq<Cell>, before: bool, pad: Char16, text: Text16, width: nat, fieldWidth: nat, attr: Word64)
    ensures var blanks, padding := Ink(Repeat(SPACE, fieldWidth - width), attr), Ink(Repeat(pad, width - |text|), attr);
            start + Ink(Laid(before, pad, text, width, fieldWidth), attr)
            == if before then start + blanks + padding + Ink(text, attr) else start + padding + Ink(text, attr) + blanks
  {
    InkField(start, Repeat(SPACE, fieldWidth - width), Repeat(pad, width - |text|), text, attr);
  }

  /** The length of an item: up to its terminator, and no more than the field width. */
  method ItemLength(s: Text16, fieldWidth: Word64) returns (n: nat)
    requires 0 in s
    ensures n <= |UpToNul(s)| <= |s| && s[..n] == Truncated(UpToNul(s), fieldWidth)
  {
    n := 0;
    ghost var text := UpToNul(s);
    Terminates(s);
    while n < fieldWidth && s[n] != 0
      invariant n <= fieldWidth && n <= |text| < |s|
      decreases fieldWidth - n
    {
      assert n < |text|;
      n := n + 1;
    }
    assert n < |text| ==> text[n] == s[n];
  }

  lemma Terminates(s: Text16)
    requires 0 in s
    ensures |UpToNul(s)| < |s|
  {
    var k :| 0 <= k < |s| && s[k] == 0;
    var text := UpToNul(s);
    assert forall i :: 0 <= i < |text| ==> text[i] == s[i];
    assert |text| <= k;
  }

  lemma CharString(c: Char16)
    ensures UpToNul([c, 0]) == UpToNul([c])
  {
    assert [c, 0][1..] == [0] && [c][1..] == [];
  }

  /** The memory a string argument stands for, with its terminator. */
  function StringItem(c: Char16, a: Arg): Text16
    requires TakesText(c) && !a.Value?
  {
    (if a.NullString? then Null() else if c == 'D' as int then Truncated(a.s, ITEM_TEXT_LEN) else a.s) + [0]
  }

  lemma {:induction false} UpToNulTerminated(s: Text16)
    ensures UpToNul(s + [0]) == UpToNul(s)
  {
    if |s| > 0 {
      assert (s + [0])[1..] == s[1..] + [0];
      UpToNulTerminated(s[1..]);
    }
  }

  lemma StringItemText(c: Char16, a: Arg)
    requires TakesText(c) && !a.Value?
    ensures UpToNul(StringItem(c, a)) == StringText(c, a)
  {
    if a.NullString? {
      UpToNulIs(Null() + [0], 6);
    } else {
      UpToNulTerminated(if c == 'D' as int then Truncated(a.s, ITEM_TEXT_LEN) else a.s);
    }
  }

  const PRINT_ITEM_BUFFER_LEN := 100

  lemma StringWithin(text: Text16, after: Text16)
    requires NoNul(text)
    ensures UpToNul(text + [0] + after) == text
  {
    var s := text + [0] + after;
    assert s[..|text|] == text;
    UpToNulIs(s, |text|);
  }

  method HexString(prefix: Text16, low: Word64) returns (s: Text16)
    requires NoNul(prefix)
    ensures 0 in s && UpToNul(s) == prefix + Text(16, low)
  {
    var hex := new Char16[PRINT_ITEM_BUFFER_LEN - 2];
    ghost var text := Text(16, low);
    TextNoNul(16, low);
    ValueToHex(hex, low);
    ghost var after := hex[|text| + 1..];
    assert hex[..] == text + [0] + after;
    s := prefix + hex[..];
    assert s == (prefix + text) + [0] + after;
    StringWithin(prefix + text, after);
  }

  method DecimalString(comma: bool, value: int) returns (s: Text16)
    requires -TWO63 <= value < TWO63
    ensures 0 in s && UpToNul(s) == SignedText(value, comma)
  {
    var scratch := new Char16[PRINT_ITEM_BUFFER_LEN];
    SignedTextNoNul(value, comma);
    ValueToString(scratch, comma, value);
    s := scratch[..];
    ghost var text := SignedText(value, comma);
    ghost var after := scratch[|text| + 1..];
    assert s == text + [0] + after;
    StringWithin(text, after);
  }

  /** Prints a number into scratch space; the string is what it holds up to its terminator. */
  method NumberString(c: Char16, item: Item, v: Word64) returns (s: Text16)
    requires TakesNumber(c)
    ensures 0 in s && UpToNul(s) == NumberText(c, item, v)
  {
    if c == 'd' as int {
      s := DecimalString(item.comma, SignedLow(v, item.long));
    } else if c == 'u' as int {
      s := DecimalString(item.comma, UnsignedLow(v, item.long));
    } else if c == 'p' as int {
      s := HexString(['0' as int, 'x' as int], Low(v, item.long));
    } else {
      s := HexString([], Low(v, item.long));
      assert [] + Text(16, Low(v, item.long)) == Text(16, Low(v, item.long));
    }
  }
}
