/**
 The output function of bootloader/gnu-efi/lib/print.c that grows an allocation as needed, and its clients.
 Which of the calls find an allocation refused is arbitrary.

 A refusal loses everything collected so far, and later calls start anew.  What is kept in the end therefore
 depends on which calls need to grow the allocation, and that on the lengths of the calls alone.
 */
module PrintPool {
  import opened Basics
  import opened PrintNumbers
  import opened PrintFormat
  import opened PrintLaws
  import opened PrintText
  import opened Printer
  import opened PrintSinks

  // ----- when the allocation grows -----

  /** The length and the capacity of an allocation. */
  datatype Sizes = Sizes(len: nat, maxlen: nat) {
    predicate Grows(n: nat) {
      len + n + 1 > maxlen
    }

    /** After n more characters; a refusal leaves nothing. */
    function Next(n: nat, granted: bool): Sizes {
      if !Grows(n) then Sizes(len + n, maxlen)
      else if granted then Sizes(len + n, len + n + 1 + PRINT_STRING_LEN)
      else Sizes(0, 0)
    }
  }

  /** The sizes after i calls. */
  function SizesAfter(s: Sizes, log: seq<Chunk>, refused: set<nat>, i: nat): Sizes
    requires i <= |log|
  {
    if i == 0 then s else SizesAfter(s, log, refused, i - 1).Next(|log[i - 1].text|, i - 1 !in refused)
  }

  /** Call i needs to grow the allocation and is refused. */
  predicate Refused(s: Sizes, log: seq<Chunk>, refused: set<nat>, i: nat)
    requires i < |log|
  {
    i in refused && SizesAfter(s, log, refused, i).Grows(|log[i].text|)
  }

  /** How many of the first i calls are lost: all up to the last one that is refused. */
  function Lost(s: Sizes, log: seq<Chunk>, refused: set<nat>, i: nat): (lost: nat)
    requires i <= |log|
    ensures lost <= i
  {
    if i == 0 then 0 else if Refused(s, log, refused, i - 1) then i else Lost(s, log, refused, i - 1)
  }

  /** Call k grows the allocation when all calls before it were granted. */
  predicate GrowsAt(s: Sizes, log: seq<Chunk>, k: nat)
    requires k < |log|
  {
    SizesAfter(s, log, {}, k).Grows(|log[k].text|)
  }

  /** None of the first i calls that grows the allocation is refused. */
  ghost predicate GrowthGranted(s: Sizes, log: seq<Chunk>, refused: set<nat>, i: nat)
    requires i <= |log|
  {
    forall k :: 0 <= k < i && GrowsAt(s, log, k) ==> k !in refused
  }

  /** As long as that is so, the sizes are those without refusals. */
  lemma {:induction false} SizesGranted(s: Sizes, log: seq<Chunk>, refused: set<nat>, i: nat)
    requires i <= |log| && GrowthGranted(s, log, refused, i)
    ensures SizesAfter(s, log, refused, i) == SizesAfter(s, log, {}, i)
  {
    if i > 0 {
      SizesGranted(s, log, refused, i - 1);
      assert GrowsAt(s, log, i - 1) ==> i - 1 !in refused;
    }
  }

  /** Nothing is lost exactly when no call that grows the allocation is refused. */
  lemma {:induction false} NothingLostIff(s: Sizes, log: seq<Chunk>, refused: set<nat>, i: nat)
    requires i <= |log|
    ensures Lost(s, log, refused, i) == 0 <==> GrowthGranted(s, log, refused, i)
  {
    if i > 0 {
      NothingLostIff(s, log, refused, i - 1);
      if GrowthGranted(s, log, refused, i - 1) {
        SizesGranted(s, log, refused, i - 1);
        assert Refused(s, log, refused, i - 1) <==> i - 1 in refused && GrowsAt(s, log, i - 1);
      }
    }
  }

  // ----- the growing sink -----

  /** Either nothing at all, or an allocation of maxlen characters that holds a terminated string. */
  ghost predicate Pooled(spc: Sink)
    reads spc, spc.str
  {
    if spc.str == null then spc.len == 0 && spc.maxlen == 0
    else spc.len < spc.maxlen == spc.str.Length && spc.str[spc.len] == 0
  }

  ghost function PoolText(spc: Sink): Text16
    requires Pooled(spc)
    reads spc, spc.str
  {
    if spc.str == null then [] else spc.str[..spc.len]
  }

  /** Copies what fits of the old allocation to a new one.  The old one, if there is one, is handed back in any
      case. */
  method ReallocatePool(oldPool: array?<Char16>, oldSize: nat, newSize: nat, granted: bool)
    returns (newPool: array?<Char16>, freed: array?<Char16>)
    requires oldPool == null || oldSize <= oldPool.Length
    ensures newPool != null <==> granted && newSize > 0
    ensures newPool != null ==> fresh(newPool) && newPool.Length == newSize
    ensures newPool != null && oldPool != null ==> newPool[..Min(oldSize, newSize)] == oldPool[..Min(oldSize, newSize)]
    ensures freed == oldPool
  {
    newPool, freed := null, null;
    if newSize > 0 && granted {
      newPool := new Char16[newSize];
    }
    if oldPool != null {
      if newPool != null {
        CopyChars(newPool, 0, oldPool[..oldSize], Min(oldSize, newSize));
      }
      freed := oldPool;
    }
  }

  ghost function SizesOf(spc: Sink): Sizes
    reads spc
  {
    Sizes(spc.len, spc.maxlen)
  }

  /** An allocation is needed for n more characters. */
  ghost predicate Grows(spc: Sink, n: nat)
    reads spc
  {
    SizesOf(spc).Grows(n)
  }

  /** Makes room; when that fails, everything collected so far is lost. */
  method MakeRoom(spc: Sink, n: nat, granted: bool)
    requires Pooled(spc)
    modifies spc
    ensures spc.str == old(spc.str) || (spc.str != null && fresh(spc.str)) || spc.str == null
    ensures old(Grows(spc, n)) && !granted ==> spc.str == null && spc.len == 0 && spc.maxlen == 0
    ensures !old(Grows(spc, n)) ==> spc.str == old(spc.str) && spc.maxlen == old(spc.maxlen)
    ensures old(Grows(spc, n)) && granted ==> spc.maxlen == old(spc.len) + n + 1 + PRINT_STRING_LEN
    ensures !(old(Grows(spc, n)) && !granted) ==>
              && spc.str != null && spc.len == old(spc.len) && spc.len + n < spc.maxlen == spc.str.Length
              && spc.str[..spc.len] == old(PoolText(spc))
  {
    var newlen := spc.len + n + 1;
    if newlen > spc.maxlen {
      newlen := newlen + PRINT_STRING_LEN;
      spc.maxlen := newlen;
      var newPool, freed := ReallocatePool(spc.str, spc.len, spc.maxlen, granted);
      spc.str := newPool;
      if spc.str == null {
        spc.len := 0;
        spc.maxlen := 0;
      }
    }
  }

  /** Appends a string; an allocation that fails leaves nothing behind. */
  method PoolPrintChunk(spc: Sink, text: Text16, granted: bool)
    requires Pooled(spc)
    modifies spc, spc.str
    ensures Pooled(spc) && (spc.str == old(spc.str) || spc.str == null || fresh(spc.str))
    ensures SizesOf(spc) == old(SizesOf(spc)).Next(|text|, granted)
    ensures !old(Grows(spc, |text|)) ==> spc.str == old(spc.str)
    ensures spc.str == null <==> old(Grows(spc, |text|)) && !granted
    ensures spc.str != null ==> PoolText(spc) == old(PoolText(spc)) + text
  {
    MakeRoom(spc, |text|, granted);
    ghost var before := if spc.str == null then [] else spc.str[..spc.len];
    spc.SPrint(text);
    if spc.str != null {
      assert Truncated(before + text, spc.maxlen) == before + text;
      assert spc.str[..spc.len] == before + text;
    }
  }

  /** The text of the calls since the last one that was lost, after what was held at first if none was. */
  ghost function Since(start: Text16, log: seq<Chunk>, lost: nat, i: nat): Text16
    requires lost <= i <= |log|
  {
    (if lost == 0 then start else []) + AllText(log[lost..i])
  }

  lemma SinceStart(start: Text16, log: seq<Chunk>, i: nat)
    requires i <= |log|
    ensures Since(start, log, 0, 0) == start && (i > 0 ==> Since(start, log, i, i) == [])
  {
    assert log[0..0] == [] && log[i..i] == [];
  }

  lemma SinceNext(start: Text16, log: seq<Chunk>, lost: nat, i: nat)
    requires lost <= i < |log|
    ensures Since(start, log, lost, i + 1) == Since(start, log, lost, i) + log[i].text
  {
    AllTextNext(log, lost, i);
  }

  /** A sink holds this text after i calls, or nothing at all when the last of them was lost. */
  ghost predicate Collected(text: Text16, gone: bool, start: Text16, log: seq<Chunk>, lost: nat, i: nat) {
    lost <= i <= |log| && text == Since(start, log, lost, i) && (i > 0 ==> (gone <==> lost == i))
  }

  lemma CollectedNext(text: Text16, gone: bool, text': Text16, gone': bool, start: Text16, log: seq<Chunk>, lost: nat, i: nat)
    requires i < |log| && Collected(text, gone, start, log, lost, i)
    requires text' == if gone' then [] else text + log[i].text
    ensures Collected(text', gone', start, log, if gone' then i + 1 else lost, i + 1)
  {
    SinceNext(start, log, lost, i);
    SinceStart(start, log, i + 1);
  }

  /** Delivers calls to the growing sink.  Exactly those up to the last refused one are lost. */
  method DeliverPool(spc: Sink, log: seq<Chunk>, refused: set<nat>)
    requires Pooled(spc)
    modifies spc, spc.str
    ensures Pooled(spc) && SizesOf(spc) == SizesAfter(old(SizesOf(spc)), log, refused, |log|)
    ensures Collected(PoolText(spc), spc.str == null, old(PoolText(spc)), log, Lost(old(SizesOf(spc)), log, refused, |log|), |log|)
  {
    var i := 0;
    ghost var start, sizes, mine := PoolText(spc), SizesOf(spc), spc.str;
    SinceStart(start, log, 0);
    while i < |log|
      invariant i <= |log| && Pooled(spc) && (spc.str == mine || spc.str == null || fresh(spc.str))
      invariant SizesOf(spc) == SizesAfter(sizes, log, refused, i)
      invariant Collected(PoolText(spc), spc.str == null, start, log, Lost(sizes, log, refused, i), i)
    {
      ghost var text, gone := PoolText(spc), spc.str == null;
      PoolPrintChunk(spc, log[i].text, i !in refused);
      CollectedNext(text, gone, PoolText(spc), spc.str == null, start, log, Lost(sizes, log, refused, i), i);
      i := i + 1;
    }
  }

  /** A sink of these sizes keeps the whole text: no growth is refused, or what is lost is empty and the last call
      is not refused. */
  ghost predicate KeepsAll(s: Sizes, log: seq<Chunk>, refused: set<nat>) {
    var lost := Lost(s, log, refused, |log|);
    GrowthGranted(s, log, refused, |log|) || (lost < |log| && s.len == 0 && AllText(log[..lost]) == [])
  }

  /** The text held in the end is the whole text exactly then. */
  lemma KeepsAllIff(s: Sizes, start: Text16, log: seq<Chunk>, refused: set<nat>)
    requires |log| > 0 && |start| == s.len
    ensures var lost := Lost(s, log, refused, |log|);
            lost < |log| && Since(start, log, lost, |log|) == start + AllText(log) <==> KeepsAll(s, log, refused)
  {
    var lost := Lost(s, log, refused, |log|);
    NothingLostIff(s, log, refused, |log|);
    SinceMeaning(start, log, lost);
    if lost > 0 {
      SinceLost(start, log, lost);
      AllTextSplit(log, lost);
      assert |start + AllText(log)| == s.len + |AllText(log[..lost])| + |AllText(log[lost..])|;
    }
  }

  /** A refused growth loses nothing when all before it is empty, as after a colour at the start of a format. */
  lemma EmptyLossHarmless()
    ensures var log := [Chunk([], 0), Chunk(['a' as int], 0)];
            !GrowthGranted(Sizes(0, 0), log, {0}, 2) && KeepsAll(Sizes(0, 0), log, {0})
  {
    var log := [Chunk([], 0), Chunk(['a' as int], 0)];
    assert SizesAfter(Sizes(0, 0), log, {}, 0) == Sizes(0, 0) && GrowsAt(Sizes(0, 0), log, 0);
    assert SizesAfter(Sizes(0, 0), log, {0}, 0) == Sizes(0, 0) && Refused(Sizes(0, 0), log, {0}, 0);
    assert Lost(Sizes(0, 0), log, {0}, 1) == 1 && Lost(Sizes(0, 0), log, {0}, 2) == 1;
    assert log[..1] == [Chunk([], 0)] && log[..1][..0] == [];
  }

  /** Appends a formatted text.  The calls tell, by their lengths, exactly what is kept: the text of those after
      the last refused one, which is the whole text exactly under KeepsAll. */
  method CatPrint(spc: Sink, fmt: Text16, args: seq<Arg>, refused: set<nat>) returns (str: array?<Char16>, ghost calls: seq<Chunk>)
    requires Pooled(spc) && ZeroTerminated(fmt) && Complete(fmt[..|fmt| - 1], args)
    modifies spc, spc.str
    ensures Pooled(spc) && str == spc.str
    ensures |calls| > 0 && AllText(calls) == Output(fmt[..|fmt| - 1], args)
    ensures Uncoloured(fmt[..|fmt| - 1], args, 0, NoColours()) ==> Texts(calls) == Pieces(Output(fmt[..|fmt| - 1], args))
    ensures var lost := Lost(old(SizesOf(spc)), calls, refused, |calls|);
            && (str == null <==> lost == |calls|)
            && PoolText(spc) == Since(old(PoolText(spc)), calls, lost, |calls|)
    ensures str != null && PoolText(spc) == old(PoolText(spc)) + Output(fmt[..|fmt| - 1], args)
            <==> KeepsAll(old(SizesOf(spc)), calls, refused)
  {
    var log := PoolCatPrint(fmt, args);
    calls := log;
    KeepsAllIff(SizesOf(spc), PoolText(spc), log, refused);
    DeliverPool(spc, log, refused);
    str := spc.str;
  }

  lemma SinceMeaning(start: Text16, log: seq<Chunk>, lost: nat)
    requires lost <= |log|
    ensures lost == 0 ==> Since(start, log, lost, |log|) == start + AllText(log)
    ensures lost > 0 ==> EndsWith(AllText(log), Since(start, log, lost, |log|))
  {
    if lost == 0 {
      assert log[0..|log|] == log;
    } else {
      SinceLost(start, log, lost);
      AllTextSuffix(log, lost);
    }
  }

  lemma SinceLost(start: Text16, log: seq<Chunk>, lost: nat)
    requires 0 < lost <= |log|
    ensures Since(start, log, lost, |log|) == AllText(log[lost..])
  {
    assert log[lost..|log|] == log[lost..];
    EmptyLeft(AllText(log[lost..]));
  }

  ghost predicate EndsWith(s: Text16, t: Text16) {
    |t| <= |s| && s[|s| - |t|..] == t
  }

  lemma {:induction false} AllTextSuffix(log: seq<Chunk>, from: nat)
    requires from <= |log|
    ensures EndsWith(AllText(log), AllText(log[from..]))
    decreases |log|
  {
    if from < |log| {
      var init, k := log[..|log| - 1], log[|log| - 1];
      AllTextSuffix(init, from);
      assert log[from..][..|log[from..]| - 1] == init[from..];
      assert log[from..][|log[from..]| - 1] == k;
      assert AllText(log[from..]) == AllText(init[from..]) + k.text;
    } else {
      assert log[from..] == [];
    }
  }

  /** Prints into a new allocation: NULL exactly when the last call is refused, otherwise the terminated text of the
      calls after the last refused one. */
  method VPoolPrint(fmt: Text16, args: seq<Arg>, refused: set<nat>) returns (str: array?<Char16>, ghost calls: seq<Chunk>)
    requires ZeroTerminated(fmt) && Complete(fmt[..|fmt| - 1], args)
    ensures |calls| > 0 && AllText(calls) == Output(fmt[..|fmt| - 1], args)
    ensures Uncoloured(fmt[..|fmt| - 1], args, 0, NoColours()) ==> Texts(calls) == Pieces(Output(fmt[..|fmt| - 1], args))
    ensures str == null <==> Lost(Sizes(0, 0), calls, refused, |calls|) == |calls|
    ensures str != null ==> HoldsString(str[..], AllText(calls[Lost(Sizes(0, 0), calls, refused, |calls|)..]))
    ensures str != null && HoldsString(str[..], Output(fmt[..|fmt| - 1], args)) <==> KeepsAll(Sizes(0, 0), calls, refused)
    ensures refused == {} ==> str != null && HoldsString(str[..], Output(fmt[..|fmt| - 1], args))
    ensures str != null ==> exists s :: EndsWith(Output(fmt[..|fmt| - 1], args), s) && HoldsString(str[..], s)
  {
    var spc := new Sink(null, 0);
    str, calls := CatPrint(spc, fmt, args, refused);
    ghost var text := PoolText(spc);
    ghost var lost := Lost(Sizes(0, 0), calls, refused, |calls|);
    SinceMeaning([], calls, lost);
    assert text == AllText(calls[lost..]) by {
      if lost > 0 {
        SinceLost([], calls, lost);
      } else {
        assert calls[0..] == calls && [] + AllText(calls) == AllText(calls);
      }
    }
    RenderNoNul(fmt[..|fmt| - 1], args, 0, NoColours());
    AllTextSuffix(calls, lost);
    if str != null {
      OneString(str[..], text, AllText(calls));
    }
  }

  /** Of strings without terminators inside, memory holds at most one. */
  lemma OneString(memory: Text16, s: Text16, t: Text16)
    requires HoldsString(memory, s) && EndsWith(t, s) && NoNul(t)
    ensures HoldsString(memory, t) <==> s == t
  {
    assert NoNul(s) by {
      forall i | 0 <= i < |s| ensures s[i] != 0 {
        assert s[i] == t[|t| - |s| + i];
      }
    }
    UpToNulIs(memory, |s|);
    if HoldsString(memory, t) {
      UpToNulIs(memory, |t|);
    }
  }

  /** The memory starts with a string and its terminator. */
  ghost predicate HoldsString(memory: Text16, s: Text16) {
    |s| < |memory| && memory[..|s|] == s && memory[|s|] == 0
  }

  // ----- a text that loses its start -----

  function As(n: nat): Text16 {
    Repeat('a' as int, n)
  }

  lemma PlainOutput(t: Text16)
    requires forall i :: 0 <= i < |t| ==> t[i] != PERCENT && t[i] != NEWLINE
    ensures Complete(t, []) && Output(t, []) == t
  {
    RenderPlain(t, [], 0, NoColours());
    ExpandNoNewline(t);
    PlainPaint(t, 0);
  }

  /** A plain format of that many characters, as it is in memory. */
  lemma PlainFormat(n: nat)
    ensures var fmt := As(n) + [0];
            && fmt[..|fmt| - 1] == As(n) && |As(n)| == n && ZeroTerminated(fmt)
            && Complete(As(n), []) && Output(As(n), []) == As(n) && Uncoloured(As(n), [], 0, NoColours())
  {
    RepeatAll('a' as int, n);
    PlainOutput(As(n));
    PlainUncoloured(As(n), [], 0, NoColours());
  }

  lemma RepeatSplit(c: Char16, n: nat, k: nat)
    requires k <= n
    ensures Repeat(c, n)[..k] == Repeat(c, k) && Repeat(c, n)[k..] == Repeat(c, n - k)
  {
    RepeatAll(c, n);
    RepeatAll(c, k);
    RepeatAll(c, n - k);
  }

  /** Two calls: a full buffer and what is left. */
  lemma TwoPieces(n: nat)
    requires END <= n < 2 * END
    ensures Pieces(As(n)) == [As(END), As(n - END)]
  {
    RepeatSplit('a' as int, n, END);
    assert Pieces(As(n - END)) == [As(n - END)];
  }

  /** When the first of two calls is refused, the second is kept. */
  lemma OnlySecond(calls: seq<Chunk>, n: nat)
    requires END <= n && Texts(calls) == [As(END), As(n - END)]
    ensures |calls| == 2 && Lost(Sizes(0, 0), calls, {0}, 2) == 1 && AllText(calls[1..]) == As(n - END)
  {
    TextsAt(calls);
    assert SizesAfter(Sizes(0, 0), calls, {0}, 0) == Sizes(0, 0);
    assert Refused(Sizes(0, 0), calls, {0}, 0);
    assert Lost(Sizes(0, 0), calls, {0}, 1) == 1;
    assert calls[1..] == [calls[1]] && calls[1..][..0] == [];
  }

  /** Between 199 and 397 characters are printed by two calls.  When only the first is refused, the result is not NULL
      and holds what follows the first 199 characters. */
  method StartLost(n: nat) returns (str: array?<Char16>)
    requires END <= n < 2 * END
    ensures str != null && HoldsString(str[..], As(n - END)) && !HoldsString(str[..], As(n))
  {
    var fmt := As(n) + [0];
    PlainFormat(n);
    ghost var calls;
    str, calls := VPoolPrint(fmt, [], {0});
    TwoPieces(n);
    OnlySecond(calls, n);
    NotWhole(str[..], n);
  }

  lemma NotWhole(memory: Text16, n: nat)
    requires n >= END && HoldsString(memory, As(n - END))
    ensures !HoldsString(memory, As(n))
  {
    RepeatSplit('a' as int, n, END);
    RepeatAll('a' as int, n);
    OneString(memory, As(n - END), As(n));
  }
}
