/**
 The output function of bootloader/gnu-efi/lib/print.c that truncates text to the caller's buffer.  The calls
 that the printer makes are delivered to it in order.
 */
module PrintSinks {
  import opened Basics
  import opened Digits
  import opened PrintFormat
  import opened PrintLaws
  import opened PrintText
  import opened Printer

  // ----- the text of a sequence of calls -----

  function AllText(log: seq<Chunk>): Text16 {
    if |log| == 0 then [] else AllText(log[..|log| - 1]) + log[|log| - 1].text
  }

  lemma AllTextAppend(log: seq<Chunk>, k: Chunk)
    ensures AllText(log + [k]) == AllText(log) + k.text
  {
    assert (log + [k])[..|log|] == log;
  }

  /** Chopping a run of calls into chunks leaves no trace in the text. */
  lemma {:induction false} AllTextIsPlain(log: seq<Chunk>)
    ensures AllText(log) == Plain(Cells(log))
  {
    if |log| > 0 {
      var k := log[|log| - 1];
      AllTextIsPlain(log[..|log| - 1]);
      PlainPaint(k.text, k.attr);
      PlainConcat(Cells(log[..|log| - 1]), Paint(k.text, k.attr));
    }
  }

  lemma AllTextNext(log: seq<Chunk>, from: nat, i: nat)
    requires from <= i < |log|
    ensures AllText(log[from..i + 1]) == AllText(log[from..i]) + log[i].text
  {
    assert log[from..i + 1] == log[from..i] + [log[i]];
    AllTextAppend(log[from..i], log[i]);
  }

  lemma {:induction false} AllTextSplit(log: seq<Chunk>, i: nat)
    requires i <= |log|
    ensures AllText(log) == AllText(log[..i]) + AllText(log[i..])
    decreases |log|
  {
    if i == |log| {
      assert log[..i] == log && log[i..] == [];
    } else {
      var init, k := log[..|log| - 1], log[|log| - 1];
      AllTextSplit(init, i);
      assert init[..i] == log[..i] && log[i..] == init[i..] + [k] && log == init + [k];
      AllTextAppend(init, k);
      AllTextAppend(init[i..], k);
      ConcatAssociative(AllText(init[..i]), AllText(init[i..]), k.text);
    }
  }

  // ----- where a text is cut -----

  /** The texts of some calls. */
  function Texts(log: seq<Chunk>): (ts: seq<Text16>)
    ensures |ts| == |log|
  {
    if |log| == 0 then [] else [log[0].text] + Texts(log[1..])
  }

  lemma {:induction false} TextsAt(log: seq<Chunk>)
    ensures forall i :: 0 <= i < |log| ==> Texts(log)[i] == log[i].text
  {
    if |log| > 0 {
      TextsAt(log[1..]);
    }
  }

  /** A text in pieces of a full buffer, and what is left, which may be empty. */
  function Pieces(s: Text16): seq<Text16> {
    if |s| < END then [s] else [s[..END]] + Pieces(s[END..])
  }

  /** Calls that are all full but the last are determined by their text. */
  lemma {:induction false} FullCallsArePieces(log: seq<Chunk>)
    requires |log| > 0 && AllFull(log[..|log| - 1]) && |log[|log| - 1].text| < END
    ensures Texts(log) == Pieces(AllText(log))
    decreases |log|
  {
    var first, rest := log[0], log[1..];
    AllTextSplit(log, 1);
    assert log[..1] == [first] && [first][..0] == [] && AllText([first]) == first.text;
    if |log| == 1 {
      assert rest == [] && AllText(log) == first.text;
    } else {
      assert log[..|log| - 1][0] == first;
      forall i | 0 <= i < |rest| - 1 ensures |rest[i].text| == END {
        assert rest[i] == log[..|log| - 1][i + 1];
      }
      FullCallsArePieces(rest);
      assert AllText(log)[..END] == first.text && AllText(log)[END..] == AllText(rest);
    }
  }

  lemma TruncatedTwice(a: Text16, b: Text16, n: nat)
    ensures Truncated(Truncated(a, n) + b, n) == Truncated(a + b, n)
  {}

  function Min(a: nat, b: nat): nat {
    if a <= b then a else b
  }

  // ----- the truncating sink -----

  /** Memory with a string stored at its start. */
  ghost function Stored(memory: Text16, s: Text16): Text16
    requires |s| < |memory|
  {
    s + [0] + memory[|s| + 1..]
  }

  lemma StoredTwice(memory: Text16, s: Text16, t: Text16)
    requires |s| <= |t| < |memory|
    ensures Stored(Stored(memory, s), t) == Stored(memory, t)
  {}

  /** POOL_PRINT */
  class Sink {
    var str: array?<Char16>
    var len: nat
    var maxlen: nat

    constructor (str: array?<Char16>, maxlen: nat)
      ensures this.str == str && len == 0 && this.maxlen == maxlen
    {
      this.str, len, this.maxlen := str, 0, maxlen;
    }

    /** The buffer holds the characters so far and has room for a terminator after n more. */
    ghost predicate Room(n: nat)
      reads this
    {
      len <= maxlen && (maxlen > 0 ==> str != null && Min(len + n, maxlen) < str.Length)
    }

    ghost function Contents(): Text16
      requires Room(0)
      reads this, str
    {
      if maxlen == 0 then [] else str[..len]
    }

    ghost predicate Terminated()
      requires Room(0)
      reads this, str
    {
      maxlen > 0 ==> str[len] == 0
    }

    /** Appends a string, truncated to what fits, and terminates it. */
    method SPrint(text: Text16)
      requires Room(|text|)
      modifies this`len, str
      ensures len == Min(old(len) + |text|, maxlen) && Room(0) && Terminated()
      ensures maxlen > 0 ==> str[..] == Stored(old(str[..]), Truncated(old(Contents()) + text, maxlen))
      ensures maxlen == 0 && str != null ==> str[..] == old(str[..])
    {
      var n := |text|;
      if len + n > maxlen {
        n := maxlen - len;
      }
      if maxlen > 0 {
        CopyAndTerminate(str, len, text, n, maxlen);
      }
      len := len + n;
    }
  }

  /** Copies n characters to str + len and terminates the string after them. */
  method CopyAndTerminate(str: array<Char16>, len: nat, text: Text16, n: nat, maxlen: nat)
    requires len <= maxlen && n == (if len + |text| > maxlen then maxlen - len else |text|) && len + n < str.Length
    modifies str
    ensures var kept := Truncated(old(str[..len]) + text, maxlen);
            |kept| == len + n && str[..] == Stored(old(str[..]), kept) && str[..len + n] == kept && str[len + n] == 0
  {
    ghost var memory := str[..];
    StoredByCopy(memory, len, text, n, maxlen);
    CopyChars(str, len, text, n);
    assert str[..] == memory[..len] + text[..n] + memory[len + n..];
    if len + n < maxlen {
      str[len + n] := 0;
    } else {
      str[maxlen] := 0;
    }
    assert str[..] == Stored(memory, Truncated(memory[..len] + text, maxlen));
  }

  lemma StoredByCopy(memory: Text16, len: nat, text: Text16, n: nat, maxlen: nat)
    requires len <= maxlen && n == (if len + |text| > maxlen then maxlen - len else |text|) && len + n < |memory|
    ensures var kept := Truncated(memory[..len] + text, maxlen);
            && |kept| == len + n
            && (memory[..len] + text[..n] + memory[len + n..])[len + n := 0] == Stored(memory, kept)
            && Stored(memory, kept)[..len + n] == kept
  {
    assert Truncated(memory[..len] + text, maxlen) == memory[..len] + text[..n];
  }

  /** CopyMem of n characters of a string to str + at. */
  method CopyChars(str: array<Char16>, at: nat, text: Text16, n: nat)
    requires n <= |text| && at + n <= str.Length
    modifies str
    ensures str[..] == old(str[..at]) + text[..n] + old(str[at + n..])
  {
    forall k | 0 <= k < n {
      str[at + k] := text[k];
    }
  }

  /** Runs the printer without a display and returns its calls. */
  method PoolCatPrint(fmt: Text16, args: seq<Arg>) returns (calls: seq<Chunk>)
    requires ZeroTerminated(fmt) && Complete(fmt[..|fmt| - 1], args)
    ensures |calls| > 0 && Clean(calls)
    ensures AllText(calls) == Output(fmt[..|fmt| - 1], args)
    ensures Uncoloured(fmt[..|fmt| - 1], args, 0, NoColours()) ==> Texts(calls) == Pieces(Output(fmt[..|fmt| - 1], args))
  {
    var ps := new PrintState(fmt, args, 0, NoColours());
    var n := ps.Print();
    calls := ps.log;
    AllTextIsPlain(calls);
    if Uncoloured(fmt[..|fmt| - 1], args, 0, NoColours()) {
      FullCallsArePieces(calls);
    }
  }

  /** The largest length that a buffer of this size in bytes may hold; sizes 0 and 1 mean no limit. */
  function MaxLen(strSize: Word64): nat {
    Mod64(strSize / 2 - 1)
  }

  /** The buffer has room for what is stored. */
  ghost predicate Roomy(memory: Text16, text: Text16, strSize: Word64) {
    MaxLen(strSize) > 0 ==> Min(|text|, MaxLen(strSize)) < |memory|
  }

  /** The buffer after printing a text into it: the terminated prefix that fits, while slots after the terminator
      keep what they held.  With a largest length of 0 nothing is stored. */
  ghost function AfterPrint(memory: Text16, text: Text16, strSize: Word64): Text16
    requires Roomy(memory, text, strSize)
  {
    if MaxLen(strSize) == 0 then memory else Stored(memory, Truncated(text, MaxLen(strSize)))
  }

  method UnicodeVSPrint(str: array<Char16>, strSize: Word64, fmt: Text16, args: seq<Arg>) returns (n: nat)
    requires ZeroTerminated(fmt) && Complete(fmt[..|fmt| - 1], args)
    requires Roomy(str[..], Output(fmt[..|fmt| - 1], args), strSize)
    modifies str
    ensures n == Min(|Output(fmt[..|fmt| - 1], args)|, MaxLen(strSize))
    ensures str[..] == AfterPrint(old(str[..]), Output(fmt[..|fmt| - 1], args), strSize)
  {
    var log := PoolCatPrint(fmt, args);
    var spc := new Sink(str, MaxLen(strSize));
    n := DeliverSPrint(spc, log);
  }

  // ----- which sizes are respected -----

  /** Some of the first n slots terminates the string. */
  ghost predicate TerminatedWithin(memory: Text16, n: nat) {
    exists i :: 0 <= i < n && i < |memory| && memory[i] == 0
  }

  /** Whatever is printed into a buffer of this size in bytes, the string ends within it. */
  ghost predicate SizeRespected(strSize: Word64) {
    forall fmt, args, memory :: Complete(fmt, args) && Roomy(memory, Output(fmt, args), strSize) ==>
      TerminatedWithin(AfterPrint(memory, Output(fmt, args), strSize), strSize / 2)
  }

  lemma MaxLenOf(strSize: Word64)
    ensures MaxLen(strSize) == if strSize < 2 then TWO64 - 1 else strSize / 2 - 1
  {}

  /** A size is respected exactly when it has room for a character and its terminator. */
  lemma SizeRespectedIff(strSize: Word64)
    ensures SizeRespected(strSize) <==> strSize >= 4
  {
    MaxLenOf(strSize);
    if strSize >= 4 {
      forall fmt, args, memory | Complete(fmt, args) && Roomy(memory, Output(fmt, args), strSize)
        ensures TerminatedWithin(AfterPrint(memory, Output(fmt, args), strSize), strSize / 2)
      {
        var kept := Truncated(Output(fmt, args), MaxLen(strSize));
        assert Stored(memory, kept)[|kept|] == 0;
      }
    } else {
      var memory: Text16 := [1];
      assert Complete([], []) && Output([], []) == [] && Roomy(memory, Output([], []), strSize);
      assert !TerminatedWithin(AfterPrint(memory, Output([], []), strSize), strSize / 2);
    }
  }

  /** A respected size holds, as its readers see it, the prefix of the text that leaves room for a terminator. */
  lemma RespectedPrefix(memory: Text16, fmt: Text16, args: seq<Arg>, strSize: Word64)
    requires strSize >= 4 && NoNul(fmt) && Complete(fmt, args) && Roomy(memory, Output(fmt, args), strSize)
    ensures UpToNul(AfterPrint(memory, Output(fmt, args), strSize)) == Truncated(Output(fmt, args), strSize / 2 - 1)
  {
    MaxLenOf(strSize);
    RenderNoNul(fmt, args, 0, NoColours());
    var kept := Truncated(Output(fmt, args), MaxLen(strSize));
    assert Stored(memory, kept)[..|kept|] == kept;
    UpToNulIs(Stored(memory, kept), |kept|);
  }

  /** Size 1 is no limit, like size 0: every text in memory is stored whole. */
  lemma SizeOneUnlimited(memory: Text16, text: Text16)
    requires |text| < |memory| && |text| < TWO64
    ensures Roomy(memory, text, 0) && AfterPrint(memory, text, 0) == Stored(memory, text)
    ensures Roomy(memory, text, 1) && AfterPrint(memory, text, 1) == Stored(memory, text)
  {
    MaxLenOf(0);
    MaxLenOf(1);
  }

  /** With size 2 or 3, room for a terminator alone, nothing is stored. */
  lemma SizesTwoAndThreeStoreNothing(memory: Text16, text: Text16)
    ensures AfterPrint(memory, text, 2) == memory && AfterPrint(memory, text, 3) == memory
  {
    MaxLenOf(2);
    MaxLenOf(3);
  }

  // ----- delivering the calls -----

  /** The sink's buffer after a text has been delivered to it. */
  ghost predicate Delivered(spc: Sink, memory: Text16, text: Text16)
    reads spc, spc.str
  {
    && spc.str != null && spc.Room(0) && spc.len == Min(|text|, spc.maxlen) && spc.str.Length == |memory|
    && spc.Contents() == Truncated(text, spc.maxlen)
    && (spc.maxlen == 0 ==> spc.str[..] == memory)
    && (spc.maxlen > 0 ==> spc.str[..] == memory || spc.str[..] == Stored(memory, Truncated(text, spc.maxlen)))
  }

  method DeliverOne(spc: Sink, k: Chunk, ghost memory: Text16, ghost text: Text16)
    requires Delivered(spc, memory, text) && spc.Room(|k.text|)
    modifies spc`len, spc.str
    ensures Delivered(spc, memory, text + k.text)
    ensures spc.maxlen > 0 ==> spc.str[..] == Stored(memory, Truncated(text + k.text, spc.maxlen))
  {
    ghost var max := spc.maxlen;
    ghost var all := Truncated(text + k.text, max);
    TruncatedTwice(text, k.text, max);
    if max > 0 {
      StoredTwice(memory, Truncated(text, max), all);
    }
    spc.SPrint(k.text);
  }

  /** Delivers calls to the truncating sink. */
  method DeliverSPrint(spc: Sink, log: seq<Chunk>) returns (n: nat)
    requires spc.str != null && spc.len == 0 && spc.Room(|AllText(log)|) && |log| > 0
    modifies spc`len, spc.str
    ensures n == spc.len == Min(|AllText(log)|, spc.maxlen)
    ensures spc.maxlen > 0 ==> spc.str[..] == Stored(old(spc.str[..]), Truncated(AllText(log), spc.maxlen))
    ensures spc.maxlen == 0 ==> spc.str[..] == old(spc.str[..])
  {
    var i := 0;
    ghost var memory := spc.str[..];
    while i < |log|
      invariant i <= |log| && Delivered(spc, memory, AllText(log[..i]))
      invariant i > 0 && spc.maxlen > 0 ==> spc.str[..] == Stored(memory, Truncated(AllText(log[..i]), spc.maxlen))
    {
      AllTextNext(log, 0, i);
      AllTextPrefix(log, i + 1);
      DeliverOne(spc, log[i], memory, AllText(log[..i]));
      i := i + 1;
    }
    assert log[..|log|] == log;
    n := spc.len;
  }

  lemma {:induction false} AllTextPrefix(log: seq<Chunk>, i: nat)
    requires i <= |log|
    ensures |AllText(log[..i])| <= |AllText(log)|
    decreases |log| - i
  {
    if i == |log| {
      assert log[..i] == log;
    } else {
      AllTextNext(log, 0, i);
      AllTextPrefix(log, i + 1);
    }
  }
}
