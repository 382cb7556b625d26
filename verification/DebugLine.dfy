/**
 The kernel debugger's line editor and tokenizer, dbg_getcmd and dbg_parsecmd of
 arch/x86_64/debug/debug.c.

 Keystrokes are a sequence; the editor reads them until a newline or until its buffer is full.
 */
module DebugLine {
  import opened Basics
  import opened DebugNumbers

  const BACKSPACE: Char16 := 0x08
  const DELETE: Char16 := 0x7F
  const NEWLINE: Char16 := 0x0A
  const RETURN: Char16 := 0x0D

  predicate Erases(c: Char16) {
    c == BACKSPACE || c == DELETE
  }

  predicate Ends(c: Char16) {
    c == NEWLINE || c == RETURN
  }

  // ----- editing -----

  /** The line that keystrokes without a newline leave, starting from a given line. */
  function Edit(line: seq<Char16>, keys: seq<Char16>): seq<Char16>
    decreases |keys|
  {
    if |keys| == 0 then line
    else if Erases(keys[0]) then Edit(if |line| > 0 then line[..|line| - 1] else line, keys[1..])
    else Edit(line + [keys[0]], keys[1..])
  }

  /** The longest line held on the way. */
  function Peak(line: seq<Char16>, keys: seq<Char16>): nat
    decreases |keys|
  {
    if |keys| == 0 then |line|
    else
      var next := if !Erases(keys[0]) then line + [keys[0]] else if |line| > 0 then line[..|line| - 1] else line;
      var later := Peak(next, keys[1..]);
      if |line| > later then |line| else later
  }

  ghost predicate NoEnd(keys: seq<Char16>) {
    forall k :: 0 <= k < |keys| ==> keys[k] != 10 && keys[k] != 13
  }

  lemma {:induction false} EditConcat(line: seq<Char16>, a: seq<Char16>, b: seq<Char16>)
    ensures Edit(line, a + b) == Edit(Edit(line, a), b)
    decreases |a|
  {
    if |a| == 0 {
      assert a + b == b;
    } else {
      assert (a + b)[1..] == a[1..] + b;
      EditConcat(if !Erases(a[0]) then line + [a[0]] else if |line| > 0 then line[..|line| - 1] else line, a[1..], b);
    }
  }

  /** The last key: backspace (8) and delete (127) take a character away, any other key adds its own. */
  lemma KeyEdits(line: seq<Char16>, keys: seq<Char16>, c: Char16)
    ensures Edit(line, []) == line
    ensures var l := Edit(line, keys);
            Edit(line, keys + [c]) == if c != 8 && c != 127 then l + [c] else if |l| > 0 then l[..|l| - 1] else []
  {
    EditConcat(line, keys, [c]);
    assert [c][1..] == [];
  }

  /** Typing a character and erasing it is as if neither key had been struck. */
  lemma EraseUndoes(line: seq<Char16>, before: seq<Char16>, c: Char16, erase: Char16, after: seq<Char16>)
    requires c != 8 && c != 127 && (erase == 8 || erase == 127)
    ensures Edit(line, before + ([c, erase] + after)) == Edit(line, before + after)
  {
    EditConcat(line, before, [c, erase] + after);
    EditConcat(line, before, after);
    EditConcat(Edit(line, before), [c, erase], after);
    var l := Edit(line, before);
    assert [c, erase][1..] == [erase] && [erase][1..] == [];
    assert (l + [c])[..|l + [c]| - 1] == l;
    assert Edit(l, [c, erase]) == Edit(l + [c], [erase]) == l;
  }

  /** What an editing session comes to: it waits for more keys, a line is entered, or the buffer is full. */
  datatype Outcome = Waiting | Entered(line: seq<Char16>) | Full(line: seq<Char16>)

  function Session(line: seq<Char16>, keys: seq<Char16>, size: nat): Outcome
    decreases |keys|
  {
    if |line| >= size then Full(line)
    else if |keys| == 0 then Waiting
    else if Ends(keys[0]) then Entered(line)
    else if !Erases(keys[0]) then Session(line + [keys[0]], keys[1..], size)
    else Session(if |line| > 0 then line[..|line| - 1] else line, keys[1..], size)
  }

  /** When a newline comes before the buffer has filled, the line entered is the edited one. */
  lemma {:induction false} SessionEnters(line: seq<Char16>, keys: seq<Char16>, size: nat, end: nat)
    requires end < |keys| && (keys[end] == 10 || keys[end] == 13) && NoEnd(keys[..end]) && Peak(line, keys[..end]) < size
    ensures Session(line, keys, size) == Entered(Edit(line, keys[..end]))
    decreases |keys|
  {
    if end > 0 {
      assert keys[..end][0] == keys[0] && keys[..end][1..] == keys[1..][..end - 1];
      var next := if !Erases(keys[0]) then line + [keys[0]] else if |line| > 0 then line[..|line| - 1] else line;
      assert NoEnd(keys[1..][..end - 1]);
      SessionEnters(next, keys[1..], size, end - 1);
    }
  }

  /** When the buffer fills before a newline comes, the line is what the keys up to then leave. */
  lemma {:induction false} SessionFills(line: seq<Char16>, keys: seq<Char16>, size: nat, n: nat)
    requires n <= |keys| && NoEnd(keys[..n]) && |Edit(line, keys[..n])| >= size
    requires forall k :: 0 <= k < n ==> |Edit(line, keys[..k])| < size
    ensures Session(line, keys, size) == Full(Edit(line, keys[..n]))
    decreases |keys|
  {
    assert keys[..0] == [];
    if n > 0 {
      assert keys[..n][0] == keys[0] && keys[..n][1..] == keys[1..][..n - 1];
      var next := if !Erases(keys[0]) then line + [keys[0]] else if |line| > 0 then line[..|line| - 1] else line;
      assert |line| < size by {
        assert Edit(line, keys[..0]) == line;
      }
      forall k | 0 <= k < n - 1 ensures |Edit(next, keys[1..][..k])| < size {
        assert keys[..k + 1][0] == keys[0] && keys[..k + 1][1..] == keys[1..][..k];
        assert Edit(line, keys[..k + 1]) == Edit(next, keys[1..][..k]);
      }
      SessionFills(next, keys[1..], size, n - 1);
    }
  }

  /** Reads keys into cmd until the session ends. */
  method DbgGetcmd(cmd: array<Char16>, size: nat, keys: seq<Char16>) returns (newSize: nat)
    requires size <= cmd.Length && !Session([], keys, size).Waiting?
    modifies cmd
    ensures newSize <= size
    ensures match Session([], keys, size)
            case Entered(line) => cmd[..newSize] == line + [0]
            case Full(line) => newSize == size && cmd[..size] == line
  {
    var i: nat, next: nat := 0, 0;
    ghost var goal := Session([], keys, size);
    assert keys[0..] == keys && cmd[..0] == [];
    while i < size
      invariant i <= size && next <= |keys| && Session(cmd[..i], keys[next..], size) == goal
      decreases |keys| - next
    {
      var c := keys[next];
      assert keys[next..][0] == c && keys[next..][1..] == keys[next + 1..];
      next := next + 1;
      if Erases(c) {
        if i > 0 {
          assert cmd[..i][..i - 1] == cmd[..i - 1];
          i := i - 1;
        }
        continue;
      }
      ghost var line := cmd[..i];
      cmd[i] := c;
      assert cmd[..i] == line && cmd[..i + 1] == line + [c];
      if cmd[i] == NEWLINE || cmd[i] == RETURN {
        cmd[i] := 0;
        i := i + 1;
        assert cmd[..i] == line + [0];
        break;
      }
      i := i + 1;
    }
    newSize := i;
  }

  // ----- words -----

  /** The length of the word a text starts with. */
  function WordLength(s: seq<Char16>): (n: nat)
    ensures n <= |s|
    ensures forall k :: 0 <= k < n ==> !IsSpace(s[k])
    ensures n < |s| ==> IsSpace(s[n])
  {
    if |s| == 0 || IsSpace(s[0]) then 0 else 1 + WordLength(s[1..])
  }

  /** The whitespace-separated words of a text. */
  function Words(s: seq<Char16>): seq<seq<Char16>>
    decreases |s|
  {
    if |s| == 0 then []
    else if IsSpace(s[0]) then Words(s[1..])
    else [s[..WordLength(s)]] + Words(s[WordLength(s)..])
  }

  /** A blank (32), a tab, a newline or another of the codes 9 to 13 separates words. */
  predicate Separator(c: Char16) {
    c == 32 || c == 9 || c == 10 || c == 11 || c == 12 || c == 13
  }

  lemma SeparatorIsSpace(c: Char16)
    ensures Separator(c) <==> IsSpace(c)
  {
    CharacterClasses(c);
  }

  /** No text, no word; a text without separators is one word. */
  lemma OneWord(w: seq<Char16>)
    requires forall k :: 0 <= k < |w| ==> !Separator(w[k])
    ensures Words(w) == if |w| == 0 then [] else [w]
  {
    forall k | 0 <= k < |w| ensures !IsSpace(w[k]) {
      SeparatorIsSpace(w[k]);
    }
    if |w| > 0 {
      assert WordLength(w) == |w|;
      assert w[..|w|] == w && w[|w|..] == [];
    }
  }

  /** On both sides of a separator the words are those of each side. */
  lemma {:induction false} WordsAround(a: seq<Char16>, c: Char16, b: seq<Char16>)
    requires Separator(c)
    ensures Words(a + [c] + b) == Words(a) + Words(b)
    decreases |a|
  {
    var s := a + [c] + b;
    SeparatorIsSpace(c);
    if |a| == 0 {
      assert s[0] == c && s[1..] == b;
      assert Words(s) == Words(b);
    } else if IsSpace(a[0]) {
      assert s[0] == a[0] && s[1..] == a[1..] + [c] + b;
      WordsAround(a[1..], c, b);
    } else {
      var n := WordLength(a);
      LengthKept(a, c, b);
      assert s[..n] == a[..n] && s[n..] == a[n..] + [c] + b;
      WordsAround(a[n..], c, b);
      ConcatAssociative([a[..n]], Words(a[n..]), Words(b));
    }
  }

  lemma LengthKept(a: seq<Char16>, c: Char16, b: seq<Char16>)
    requires IsSpace(c)
    ensures WordLength(a + [c] + b) == WordLength(a)
  {
    var s, n := a + [c] + b, WordLength(a);
    assert forall k :: 0 <= k < |a| ==> s[k] == a[k];
    assert s[|a|] == c && IsSpace(s[n]);
    assert WordLength(s) == n;
  }

  /** The buffer has the word at the offset, zero terminated. */
  ghost predicate WordAt(b: seq<Char16>, at: nat, w: seq<Char16>) {
    at + |w| < |b| && b[at..at + |w|] == w && b[at + |w|] == 0
  }

  /** The text up to the buffer's first zero. */
  ghost predicate Line(b: seq<Char16>, line: seq<Char16>) {
    |line| < |b| && b[..|line|] == line && b[|line|] == 0 && 0 !in line
  }

  method SkipToWord(buf: array<Char16>, start: nat, ghost line: seq<Char16>) returns (p: nat)
    requires start <= |line| < buf.Length && 0 !in line
    requires forall k :: start <= k < |line| ==> buf[k] == line[k]
    requires buf[|line|] == 0
    ensures start <= p <= |line| && Words(line[start..]) == Words(line[p..])
    ensures p < |line| ==> !IsSpace(line[p])
  {
    p := start;
    while IsSpace(buf[p])
      invariant start <= p <= |line| && Words(line[start..]) == Words(line[p..])
      decreases |line| - p
    {
      CharacterClasses(buf[p]);
      assert line[p..][0] == line[p] && line[p..][1..] == line[p + 1..];
      p := p + 1;
    }
  }

  method SkipWord(buf: array<Char16>, start: nat, ghost line: seq<Char16>) returns (p: nat)
    requires start < |line| < buf.Length && 0 !in line && !IsSpace(line[start])
    requires forall k :: start <= k < |line| ==> buf[k] == line[k]
    requires buf[|line|] == 0
    ensures start < p <= |line| && p == start + WordLength(line[start..])
    ensures p < |line| ==> IsSpace(line[p])
  {
    p := start;
    while buf[p] != 0 && !IsSpace(buf[p])
      invariant start <= p <= |line| && p + WordLength(line[p..]) == start + WordLength(line[start..])
      invariant p == start ==> p < |line|
      decreases |line| - p
    {
      assert line[p..][0] == line[p] && line[p..][1..] == line[p + 1..];
      p := p + 1;
    }
    if p < |line| {
      assert line[p] in line && line[p..][0] == line[p];
    }
  }

  /** The first n words and those still ahead of p in the line make up all the words. */
  ghost predicate Tokenized(words: seq<seq<Char16>>, line: seq<Char16>, n: nat, p: nat) {
    p <= |line| && n <= |words| && words == words[..n] + Words(line[p..])
  }

  lemma TokenizeStep(words: seq<seq<Char16>>, line: seq<Char16>, n: nat, p: nat, q: nat)
    requires Tokenized(words, line, n, p) && p < |line| && !IsSpace(line[p]) && q == p + WordLength(line[p..])
    ensures n < |words| && words[n] == line[p..q] && Tokenized(words, line, n + 1, q)
    ensures q < |line| ==> Tokenized(words, line, n + 1, q + 1)
  {
    var rest := line[p..];
    assert rest[..q - p] == line[p..q] && rest[q - p..] == line[q..];
    assert Words(rest) == [line[p..q]] + Words(line[q..]);
    assert words[n] == Words(rest)[0];
    assert words[..n + 1] == words[..n] + [line[p..q]];
    ConcatAssociative(words[..n], [line[p..q]], Words(line[q..]));
    if q < |line| {
      assert rest[q - p] == line[q] && line[q..][0] == line[q] && line[q..][1..] == line[q + 1..];
    }
  }

  /** Only separators of the line have been overwritten, all of them before p. */
  ghost predicate SeparatorsCleared(b: seq<Char16>, was: seq<Char16>, line: seq<Char16>, p: nat) {
    && |b| == |was|
    && forall k :: 0 <= k < |b| ==> b[k] == was[k] || (k < p && k < |line| && IsSpace(line[k]) && b[k] == 0)
  }

  /** The first words, each at its offset and ended before position p or by the line's end. */
  ghost predicate Found(b: seq<Char16>, words: seq<seq<Char16>>, end: nat, argv: seq<nat>, p: nat) {
    && |argv| <= |words|
    && forall j :: 0 <= j < |argv| ==> FoundAt(b, argv[j], words[j], end, p)
  }

  ghost predicate FoundAt(b: seq<Char16>, at: nat, w: seq<Char16>, end: nat, p: nat) {
    WordAt(b, at, w) && at + |w| <= end && (at + |w| < p || p == end)
  }

  lemma FoundAtKept(b: seq<Char16>, at: nat, w: seq<Char16>, end: nat, p: nat, e: nat, q: nat)
    requires FoundAt(b, at, w, end, p) && p < e <= end < |b|
    requires if e < end then q == e + 1 else q == e
    ensures FoundAt(b[e := 0], at, w, end, q)
  {
    assert b[e := 0][at..at + |w|] == b[at..at + |w|];
  }

  /** Ending the word from p to e with a zero adds it to those found. */
  lemma FoundNext(b: seq<Char16>, words: seq<seq<Char16>>, end: nat, argv: seq<nat>, p: nat, e: nat, q: nat)
    requires Found(b, words, end, argv, p) && p < e <= end < |b|
    requires |argv| < |words| && words[|argv|] == b[p..e]
    requires if e < end then q == e + 1 else q == e
    ensures Found(b[e := 0], words, end, argv + [p], q)
  {
    var now := argv + [p];
    forall j | 0 <= j < |now| ensures FoundAt(b[e := 0], now[j], words[j], end, q) {
      if j < |argv| {
        FoundAtKept(b, argv[j], words[j], end, p, e, q);
      } else {
        assert b[e := 0][p..e] == b[p..e];
      }
    }
  }

  lemma ClearNext(b: seq<Char16>, was: seq<Char16>, line: seq<Char16>, p: nat, e: nat, q: nat)
    requires Line(was, line) && SeparatorsCleared(b, was, line, p) && p < e <= |line|
    requires if e < |line| then q == e + 1 && IsSpace(line[e]) else q == e
    ensures SeparatorsCleared(b[e := 0], was, line, q)
  {}

  lemma LineChars(was: seq<Char16>, line: seq<Char16>, b: seq<Char16>, p: nat)
    requires Line(was, line) && SeparatorsCleared(b, was, line, p)
    ensures forall k :: p <= k < |line| ==> b[k] == line[k]
    ensures p <= |line| ==> b[|line|] == 0
  {
    assert forall k :: 0 <= k < |line| ==> was[..|line|][k] == was[k];
  }

  /** Scans one word, from p to e, and ends it with a zero; q is where scanning goes on. */
  method EndWord(buf: array<Char16>, p: nat, ghost line: seq<Char16>) returns (ghost e: nat, q: nat)
    requires p < |line| < buf.Length && 0 !in line && !IsSpace(line[p])
    requires forall k :: p <= k < |line| ==> buf[k] == line[k]
    requires buf[|line|] == 0
    modifies buf
    ensures p < e <= |line| && e == p + WordLength(line[p..])
    ensures if e < |line| then q == e + 1 && IsSpace(line[e]) else q == e
    ensures buf[..] == old(buf[..])[e := 0]
  {
    q := SkipWord(buf, p, line);
    e := q;
    if q < |line| {
      assert line[q] in line;
    }
    if buf[q] != 0 {
      buf[q] := 0;
      q := q + 1;
    }
  }

  /** One word is added to those found. */
  lemma WordTaken(b: seq<Char16>, was: seq<Char16>, line: seq<Char16>, words: seq<seq<Char16>>,
                  argv: seq<nat>, p: nat, e: nat, q: nat)
    requires Line(was, line) && SeparatorsCleared(b, was, line, p) && Found(b, words, |line|, argv, p)
    requires p < |line| && !IsSpace(line[p]) && Tokenized(words, line, |argv|, p)
    requires p < e <= |line| && e == p + WordLength(line[p..])
    requires if e < |line| then q == e + 1 && IsSpace(line[e]) else q == e
    ensures SeparatorsCleared(b[e := 0], was, line, q)
    ensures Tokenized(words, line, |argv| + 1, q) && Found(b[e := 0], words, |line|, argv + [p], q)
  {
    TokenizeStep(words, line, |argv|, p, e);
    assert b[p..e] == line[p..e] by {
      LineChars(was, line, b, p);
    }
    FoundNext(b, words, |line|, argv, p, e, q);
    ClearNext(b, was, line, p, e, q);
  }

  /** Splits the line in the buffer into words, in place; argv holds their offsets. */
  method DbgParsecmd(buf: array<Char16>, maxArgs: int, ghost line: seq<Char16>) returns (argv: seq<nat>)
    requires Line(buf[..], line)
    modifies buf
    ensures |argv| == if maxArgs < 0 then 0 else if |Words(line)| <= maxArgs then |Words(line)| else maxArgs
    ensures forall j :: 0 <= j < |argv| ==> WordAt(buf[..], argv[j], Words(line)[j])
    ensures SeparatorsCleared(buf[..], old(buf[..]), line, |line|)
  {
    ghost var was, words := buf[..], Words(line);
    argv := [];
    var p: nat := 0;
    assert line[0..] == line && words[..0] == [];
    LineChars(was, line, was, 0);
    while buf[p] != 0 && |argv| < maxArgs
      invariant p <= |line| && SeparatorsCleared(buf[..], was, line, p)
      invariant Tokenized(words, line, |argv|, p) && Found(buf[..], words, |line|, argv, p)
      invariant |argv| == 0 || |argv| <= maxArgs
      invariant (p < |line| ==> buf[p] != 0) && buf[|line|] == 0
      decreases |line| - p
    {
      ghost var before := buf[..];
      LineChars(was, line, before, p);
      assert forall k :: 0 <= k < buf.Length ==> before[k] == buf[k];
      var start := SkipToWord(buf, p, line);
      StillCleared(before, was, line, words, argv, p, start);
      if buf[start] == 0 { p := start; break; }
      ghost var e;
      e, p := EndWord(buf, start, line);
      WordTaken(before, was, line, words, argv, start, e, p);
      argv := argv + [start];
      LineChars(was, line, buf[..], p);
      assert p < |line| ==> buf[..][p] == line[p] && line[p] in line;
    }
  }

  /** Skipping separators keeps what has been established. */
  lemma StillCleared(b: seq<Char16>, was: seq<Char16>, line: seq<Char16>, words: seq<seq<Char16>>,
                     argv: seq<nat>, p: nat, start: nat)
    requires SeparatorsCleared(b, was, line, p) && Found(b, words, |line|, argv, p) && Tokenized(words, line, |argv|, p)
    requires p <= start <= |line| && Words(line[p..]) == Words(line[start..])
    ensures SeparatorsCleared(b, was, line, start) && Found(b, words, |line|, argv, start)
    ensures Tokenized(words, line, |argv|, start)
  {
    forall j | 0 <= j < |argv| ensures FoundAt(b, argv[j], words[j], |line|, start) {
      assert FoundAt(b, argv[j], words[j], |line|, p);
    }
  }

  /** A command is read and split: for keys whose newline comes before the buffer fills, the words are the
      first maxArgs words of the edited line. */
  method ReadCommand(cmd: array<Char16>, keys: seq<Char16>, end: nat, maxArgs: nat) returns (argv: seq<nat>)
    requires end < |keys| && Ends(keys[end]) && NoEnd(keys[..end]) && 0 !in keys
    requires Peak([], keys[..end]) < cmd.Length
    modifies cmd
    ensures var words := Words(Edit([], keys[..end]));
            && |argv| == (if |words| <= maxArgs then |words| else maxArgs)
            && forall j :: 0 <= j < |argv| ==> WordAt(cmd[..], argv[j], words[j])
  {
    SessionEnters([], keys, cmd.Length, end);
    ghost var line := Edit([], keys[..end]);
    var size := DbgGetcmd(cmd, cmd.Length, keys);
    EditedFromKeys([], keys[..end]);
    assert cmd[..size][..|line|] == line && cmd[..size][|line|] == 0;
    assert cmd[..][..|line|] == cmd[..size][..|line|];
    argv := DbgParsecmd(cmd, maxArgs, line);
  }

  lemma {:induction false} EditedFromKeys(line: seq<Char16>, keys: seq<Char16>)
    requires 0 !in keys && 0 !in line
    ensures 0 !in Edit(line, keys)
    decreases |keys|
  {
    if |keys| != 0 {
      EditedFromKeys(if !Erases(keys[0]) then line + [keys[0]] else if |line| > 0 then line[..|line| - 1] else line,
                     keys[1..]);
    }
  }
}
