/**
 The glob matcher of bootloader/gnu-efi/lib/str.c.

 Strings and patterns are sequences of 16-bit code units ending in their only zero.  A pattern denotes
 a sequence of tokens, and a token sequence denotes the strings that split into one fitting piece per
 token.  MetaMatch walks both strings by index; every index it reads is within the string, terminator
 included.
 */
module MetaMatch {
  import opened Basics

  const STAR: Char16 := 0x2A
  const QUESTION: Char16 := 0x3F
  const OPEN: Char16 := 0x5B
  const CLOSE: Char16 := 0x5D
  const DASH: Char16 := 0x2D

  /** The characters from index i up to the terminator. */
  ghost function Text(s: seq<Char16>, i: nat): seq<Char16>
    requires i < |s|
  {
    s[i..|s| - 1]
  }

  // ----- what a pattern means -----

  datatype Token = Anything | AnyOne | OneOf(members: seq<Char16>) | Exactly(c: Char16)

  /** The lower end of a range whose dash is at index k: the character before it, or zero. */
  ghost function RangeLow(u: seq<Char16>, k: nat): Char16
    requires k < |u|
  {
    if k == 0 then 0 else u[k - 1]
  }

  /** Index k of a set admits c: a listed character, or a dash with c between its neighbours
      or equal to the upper one. */
  ghost predicate Admits(u: seq<Char16>, k: nat, c: Char16)
    requires k < |u|
  {
    if u[k] == DASH then k + 1 < |u| && (RangeLow(u, k) <= c <= u[k + 1] || c == u[k + 1]) else u[k] == c
  }

  ghost predicate InSet(c: Char16, u: seq<Char16>) {
    exists k :: 0 <= k < |u| && Admits(u, k, c)
  }

  ghost predicate Fits(t: Token, piece: seq<Char16>) {
    match t
    case Anything => true
    case AnyOne => |piece| == 1
    case OneOf(u) => |piece| == 1 && InSet(piece[0], u)
    case Exactly(c) => piece == [c]
  }

  ghost function Flatten(pieces: seq<seq<Char16>>): seq<Char16> {
    if |pieces| == 0 then [] else pieces[0] + Flatten(pieces[1..])
  }

  /** The pieces, one per token, make up w and fit their tokens. */
  ghost predicate Splits(tokens: seq<Token>, w: seq<Char16>, pieces: seq<seq<Char16>>) {
    && |pieces| == |tokens|
    && Flatten(pieces) == w
    && forall k :: 0 <= k < |tokens| ==> Fits(tokens[k], pieces[k])
  }

  /** The language of a token sequence. */
  ghost predicate Denotes(tokens: seq<Token>, w: seq<Char16>) {
    exists pieces :: Splits(tokens, w, pieces)
  }

  /** The index of the first closing bracket, or the length when there is none. */
  ghost function FirstClose(t: seq<Char16>): (k: nat)
    ensures k <= |t| && (k < |t| ==> t[k] == CLOSE)
    ensures forall i :: 0 <= i < k ==> t[i] != CLOSE
  {
    if |t| == 0 || t[0] == CLOSE then 0 else 1 + FirstClose(t[1..])
  }

  /** Every set that is opened is closed. */
  ghost predicate SetsClosed(t: seq<Char16>)
    decreases |t|
  {
    if |t| == 0 then true
    else if t[0] != OPEN then SetsClosed(t[1..])
    else
      var k := FirstClose(t[1..]);
      1 + k < |t| && SetsClosed(t[1..][k + 1..])
  }

  ghost function Tokens(t: seq<Char16>): seq<Token>
    requires SetsClosed(t)
    decreases |t|
  {
    if |t| == 0 then []
    else if t[0] == OPEN then
      var k := FirstClose(t[1..]);
      [OneOf(t[1..][..k])] + Tokens(t[1..][k + 1..])
    else
      var first := if t[0] == STAR then Anything else if t[0] == QUESTION then AnyOne else Exactly(t[0]);
      [first] + Tokens(t[1..])
  }

  // ----- matching from the left -----

  /** Membership decided token by token from the left. */
  ghost predicate Matches(tokens: seq<Token>, w: seq<Char16>)
    decreases |tokens|
  {
    if |tokens| == 0 then |w| == 0
    else if tokens[0] == Anything then exists k :: 0 <= k <= |w| && Matches(tokens[1..], w[k..])
    else |w| != 0 && Fits(tokens[0], w[..1]) && Matches(tokens[1..], w[1..])
  }

  lemma {:induction false} MatchesSplits(tokens: seq<Token>, w: seq<Char16>) returns (pieces: seq<seq<Char16>>)
    requires Matches(tokens, w)
    ensures Splits(tokens, w, pieces)
    decreases |tokens|
  {
    if |tokens| == 0 {
      return [];
    }
    var k := 1;
    if tokens[0] == Anything {
      k :| 0 <= k <= |w| && Matches(tokens[1..], w[k..]);
    }
    var rest := MatchesSplits(tokens[1..], w[k..]);
    pieces := [w[..k]] + rest;
    assert pieces[1..] == rest && w == w[..k] + w[k..];
    assert forall n :: 1 <= n < |tokens| ==> tokens[n] == tokens[1..][n - 1] && pieces[n] == rest[n - 1];
  }

  lemma {:induction false} SplitsMatches(tokens: seq<Token>, w: seq<Char16>, pieces: seq<seq<Char16>>)
    requires Splits(tokens, w, pieces)
    ensures Matches(tokens, w)
    decreases |tokens|
  {
    if |tokens| != 0 {
      var k := |pieces[0]|;
      assert w == pieces[0] + Flatten(pieces[1..]);
      assert w[..k] == pieces[0] && w[k..] == Flatten(pieces[1..]);
      assert forall n :: 0 <= n < |tokens| - 1 ==> Fits(tokens[1..][n], pieces[1..][n]) by {
        assert forall n :: 0 <= n < |tokens| - 1 ==> tokens[1..][n] == tokens[n + 1] && pieces[1..][n] == pieces[n + 1];
      }
      SplitsMatches(tokens[1..], w[k..], pieces[1..]);
      assert Fits(tokens[0], w[..k]);
    }
  }

  /** Deciding from the left decides the language. */
  lemma MatchesIffDenotes(tokens: seq<Token>, w: seq<Char16>)
    ensures Matches(tokens, w) <==> Denotes(tokens, w)
  {
    if Matches(tokens, w) {
      var pieces := MatchesSplits(tokens, w);
    }
    if Denotes(tokens, w) {
      var pieces :| Splits(tokens, w, pieces);
      SplitsMatches(tokens, w, pieces);
    }
  }

  // ----- the matcher -----

  /** Scans the set whose first character is at index start; u is its contents and the source's
      closing bracket follows.  Returns whether c is admitted and, if so, the index after the bracket. */
  method ScanSet(p: seq<Char16>, start: nat, c: Char16, ghost u: seq<Char16>) returns (found: bool, next: nat)
    requires ZeroTerminated(p) && start + |u| + 1 < |p|
    requires p[start..start + |u|] == u && CLOSE !in u && p[start + |u|] == CLOSE
    ensures found == InSet(c, u)
    ensures found ==> next == start + |u| + 1
  {
    var j := start;
    var low: Char16 := 0;
    var q: Char16 := 0;
    forall k | 0 <= k < |u| ensures u[k] == p[start + k] {
      assert p[start..start + |u|][k] == p[start + k];
    }
    while true
      invariant start <= j <= start + |u|
      invariant forall k :: 0 <= k < j - start ==> !Admits(u, k, c)
      invariant j == start ==> low == 0
      invariant j > start && u[j - start - 1] != DASH ==> low == u[j - start - 1]
      invariant j > start && u[j - start - 1] == DASH ==> j < start + |u| && low == u[j - start]
      decreases start + |u| - j
    {
      q := p[j];
      j := j + 1;
      if q == 0 { break; }
      if q == CLOSE { return false, j; }
      ghost var k := j - 1 - start;
      assert q == u[k];
      if q == DASH {
        q := p[j];
        if q == 0 || q == CLOSE {
          assert k + 1 == |u|;
          return false, j;
        }
        assert k + 1 < |u| && q == u[k + 1];
        if low <= c <= q {
          assert Admits(u, k, c);
          break;
        }
      }
      low := q;
      if c == q {
        assert Admits(u, k, c);
        break;
      }
      assert !Admits(u, k, c);
    }
    assert q != 0;
    while q != 0 && q != CLOSE
      invariant start < j <= start + |u| + 1
      invariant q == 0 ==> false
      invariant j == start + |u| + 1 ==> q == CLOSE
      invariant q == CLOSE ==> j == start + |u| + 1
      decreases |p| - j, q != CLOSE
    {
      q := p[j];
      j := j + 1;
    }
    return true, j;
  }

  /** The tokens of the pattern from index j, when its sets are closed. */
  ghost predicate Readable(p: seq<Char16>, j: nat) {
    ZeroTerminated(p) && j < |p| && SetsClosed(Text(p, j))
  }

  ghost predicate Accepts(s: seq<Char16>, i: nat, p: seq<Char16>, j: nat)
    requires i < |s| && Readable(p, j)
  {
    Matches(Tokens(Text(p, j)), Text(s, i))
  }

  lemma SkipToken(p: seq<Char16>, j: nat)
    requires Readable(p, j) && p[j] != 0 && p[j] != OPEN
    ensures Readable(p, j + 1)
    ensures var t := Tokens(Text(p, j));
            && |t| > 0 && t[1..] == Tokens(Text(p, j + 1))
            && t[0] == if p[j] == STAR then Anything else if p[j] == QUESTION then AnyOne else Exactly(p[j])
  {
    assert Text(p, j)[1..] == Text(p, j + 1);
  }

  lemma SkipSet(p: seq<Char16>, j: nat) returns (u: seq<Char16>)
    requires Readable(p, j) && p[j] == OPEN
    ensures j + |u| + 2 < |p| && p[j + 1..j + 1 + |u|] == u && CLOSE !in u && p[j + 1 + |u|] == CLOSE
    ensures Readable(p, j + |u| + 2)
    ensures var t := Tokens(Text(p, j));
            |t| > 0 && t[0] == OneOf(u) && t[1..] == Tokens(Text(p, j + |u| + 2))
  {
    var t := Text(p, j)[1..];
    var k := FirstClose(t);
    u := t[..k];
    assert p[j + 1..j + 1 + |u|] == u;
    assert t[k + 1..] == Text(p, j + |u| + 2);
    assert t[k] == p[j + 1 + k];
  }

  lemma DropFirst(s: seq<Char16>, i: nat)
    requires ZeroTerminated(s) && i < |s|
    ensures s[i] == 0 <==> i == |s| - 1
    ensures s[i] != 0 ==> |Text(s, i)| > 0 && Text(s, i)[..1] == [s[i]] && Text(s, i)[1..] == Text(s, i + 1)
    ensures s[i] == 0 ==> |Text(s, i)| == 0
  {}

  /** A star admits any suffix: trying each in turn decides the match. */
  lemma StarUnfolds(tokens: seq<Token>, w: seq<Char16>)
    requires |tokens| > 0 && tokens[0] == Anything
    ensures Matches(tokens, w) <==> Matches(tokens[1..], w) || (|w| > 0 && Matches(tokens, w[1..]))
  {
    assert w[0..] == w;
    if Matches(tokens, w) && !Matches(tokens[1..], w) {
      var k :| 0 <= k <= |w| && Matches(tokens[1..], w[k..]);
      assert w[1..][k - 1..] == w[k..];
    }
    if |w| > 0 && Matches(tokens, w[1..]) {
      var k :| 0 <= k <= |w[1..]| && Matches(tokens[1..], w[1..][k..]);
      assert w[1..][k..] == w[k + 1..];
    }
  }

  /** The token at index j takes one character of the string if it fits, and next follows it. */
  ghost predicate ConsumesOne(s: seq<Char16>, i: nat, p: seq<Char16>, j: nat, fits: bool, next: nat)
    requires i < |s| && Readable(p, j)
  {
    && Readable(p, next)
    && (s[i] == 0 || !fits ==> !Accepts(s, i, p, j))
    && (s[i] != 0 && fits ==> i + 1 < |s| && Accepts(s, i, p, j) == Accepts(s, i + 1, p, next))
  }

  lemma ConsumeToken(s: seq<Char16>, i: nat, p: seq<Char16>, j: nat)
    requires ZeroTerminated(s) && i < |s| && Readable(p, j)
    requires p[j] != 0 && p[j] != OPEN && p[j] != STAR
    ensures ConsumesOne(s, i, p, j, p[j] == QUESTION || s[i] == p[j], j + 1)
  {
    SkipToken(p, j);
    DropFirst(s, i);
  }

  lemma ConsumeSet(s: seq<Char16>, i: nat, p: seq<Char16>, j: nat) returns (u: seq<Char16>)
    requires ZeroTerminated(s) && i < |s| && Readable(p, j) && p[j] == OPEN
    ensures j + |u| + 2 < |p| && p[j + 1..j + 1 + |u|] == u && CLOSE !in u && p[j + 1 + |u|] == CLOSE
    ensures ConsumesOne(s, i, p, j, InSet(s[i], u), j + |u| + 2)
  {
    u := SkipSet(p, j);
    DropFirst(s, i);
  }

  /** The set at index j: whether the string's next character is in it, and the index after it. */
  method MatchSet(s: seq<Char16>, i: nat, p: seq<Char16>, j: nat) returns (ok: bool, next: nat)
    requires ZeroTerminated(s) && i < |s|
    requires Readable(p, j) && p[j] == OPEN
    ensures !ok ==> !Accepts(s, i, p, j)
    ensures ok ==> s[i] != 0 && j < next && ConsumesOne(s, i, p, j, true, next)
  {
    ghost var u := ConsumeSet(s, i, p, j);
    if s[i] == 0 {
      return false, 0;
    }
    ok, next := ScanSet(p, j + 1, s[i], u);
    assert ok ==> next == j + |u| + 2;
  }

  /** The question mark, set or literal at index j: whether it takes the string's next character, and
      the index of the pattern's next token. */
  method MatchOne(s: seq<Char16>, i: nat, p: seq<Char16>, j: nat) returns (ok: bool, next: nat)
    requires ZeroTerminated(s) && i < |s|
    requires Readable(p, j) && p[j] != 0 && p[j] != STAR
    ensures !ok ==> !Accepts(s, i, p, j)
    ensures ok ==> i + 1 < |s| && j < next && Readable(p, next)
    ensures ok ==> Accepts(s, i, p, j) == Accepts(s, i + 1, p, next)
  {
    next := j + 1;
    if p[j] == QUESTION {
      ConsumeToken(s, i, p, j);
      ok := s[i] != 0;
    } else if p[j] == OPEN {
      ok, next := MatchSet(s, i, p, j);
    } else {
      ConsumeToken(s, i, p, j);
      ok := s[i] == p[j];
    }
  }

  /** Returns whether the string from index i0 belongs to the language of the pattern from index j0. */
  method MetaMatch(s: seq<Char16>, i0: nat, p: seq<Char16>, j0: nat) returns (r: bool)
    requires ZeroTerminated(s) && i0 < |s|
    requires Readable(p, j0)
    ensures r == Accepts(s, i0, p, j0)
    ensures r <==> Denotes(Tokens(Text(p, j0)), Text(s, i0))
    decreases |p| - j0, 1
  {
    MatchesIffDenotes(Tokens(Text(p, j0)), Text(s, i0));
    ghost var target := Accepts(s, i0, p, j0);
    var i: nat, j: nat := i0, j0;
    while true
      invariant i < |s| && j0 <= j && Readable(p, j)
      invariant Accepts(s, i, p, j) == target
      decreases |p| - j
    {
      if p[j] == 0 {
        DropFirst(s, i);
        return s[i] == 0;
      }
      if p[j] == STAR {
        r := MatchStar(s, i, p, j);
        return;
      }
      var ok, next := MatchOne(s, i, p, j);
      if !ok { return false; }
      i, j := i + 1, next;
    }
  }

  /** The star at index j: tries the rest of the pattern on each suffix, the empty one last. */
  method MatchStar(s: seq<Char16>, i0: nat, p: seq<Char16>, j: nat) returns (r: bool)
    requires ZeroTerminated(s) && i0 < |s|
    requires Readable(p, j) && p[j] == STAR
    ensures r == Accepts(s, i0, p, j)
    decreases |p| - j, 0
  {
    SkipToken(p, j);
    var i: nat := i0;
    while s[i] != 0
      invariant i < |s| && Accepts(s, i, p, j) == Accepts(s, i0, p, j)
      decreases |s| - i
    {
      DropFirst(s, i);
      StarUnfolds(Tokens(Text(p, j)), Text(s, i));
      var m := MetaMatch(s, i, p, j + 1);
      if m { return true; }
      i := i + 1;
    }
    DropFirst(s, i);
    StarUnfolds(Tokens(Text(p, j)), Text(s, i));
    r := MetaMatch(s, i, p, j + 1);
  }
}
