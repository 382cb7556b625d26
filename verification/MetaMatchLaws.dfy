/**
 What the patterns of bootloader/gnu-efi/lib/str.c mean, stated on their texts: each kind of pattern character, sets and
 ranges, and patterns written one after the other.
 */
module MetaMatchLaws {
  import opened Basics
  import opened MetaMatch

  // ----- sets -----

  /** A range admits what lies between its ends, and the ends themselves. */
  lemma RangeAdmits(a: Char16, b: Char16, c: Char16)
    requires a != 0x2D && b != 0x2D
    ensures InSet(c, [a, 0x2D, b]) <==> a <= c <= b || c == a || c == b
  {
    var u := [a, 0x2D, b];
    assert Admits(u, 0, c) <==> c == a;
    assert Admits(u, 1, c) <==> a <= c <= b || c == b;
    assert Admits(u, 2, c) <==> c == b;
  }

  /** A set without a dash admits its members. */
  lemma PlainSetAdmits(u: seq<Char16>, c: Char16)
    requires 0x2D !in u
    ensures InSet(c, u) <==> c in u
  {
    forall k | 0 <= k < |u| ensures Admits(u, k, c) <==> u[k] == c {
      assert u[k] in u;
    }
  }

  /** Sets written one after the other admit what either admits, as long as no dash stands where they meet. */
  lemma JoinedSetsAdmit(u: seq<Char16>, v: seq<Char16>, c: Char16)
    requires |u| > 0 ==> u[|u| - 1] != 0x2D
    requires |v| > 0 ==> v[0] != 0x2D
    ensures InSet(c, u + v) <==> InSet(c, u) || InSet(c, v)
  {
    var w := u + v;
    forall k | 0 <= k < |u| ensures Admits(w, k, c) == Admits(u, k, c) {
      assert k + 1 < |u| || u[k] != 0x2D;
    }
    forall k | 0 <= k < |v| ensures Admits(w, |u| + k, c) == Admits(v, k, c) {
      assert w[|u| + k] == v[k] && (k > 0 ==> w[|u| + k - 1] == v[k - 1]);
    }
    if k :| 0 <= k < |w| && Admits(w, k, c) {
      assert if k < |u| then Admits(u, k, c) else Admits(v, k - |u|, c);
    }
    if k :| 0 <= k < |u| && Admits(u, k, c) {
      assert Admits(w, k, c);
    }
    if k :| 0 <= k < |v| && Admits(v, k, c) {
      assert Admits(w, |u| + k, c);
    }
  }

  /** The empty set admits nothing.  One more character admits itself unless it is a dash; and after a dash it ends a
      range that starts at the character before the dash, or at 0 when there is none. */
  lemma LongerSetAdmits(u: seq<Char16>, b: Char16, c: Char16)
    ensures !InSet(c, [])
    ensures var low := if |u| >= 2 then u[|u| - 2] else 0;
            InSet(c, u + [b]) <==>
              InSet(c, u) || (b != 0x2D && c == b) || (|u| > 0 && u[|u| - 1] == 0x2D && (low <= c <= b || c == b))
  {
    var w, n := u + [b], |u|;
    forall k | 0 <= k < n - 1 ensures Admits(w, k, c) == Admits(u, k, c) {
      assert w[k] == u[k] && w[k + 1] == u[k + 1];
    }
    assert Admits(w, n, c) <==> b != 0x2D && c == b;
    if n > 0 {
      assert u[n - 1] != 0x2D ==> Admits(w, n - 1, c) == Admits(u, n - 1, c);
      assert u[n - 1] == 0x2D ==> !Admits(u, n - 1, c);
      assert u[n - 1] == 0x2D ==> (Admits(w, n - 1, c) <==> RangeLow(u, n - 1) <= c <= b || c == b);
    }
    if InSet(c, u) {
      var k :| 0 <= k < n && Admits(u, k, c);
      assert Admits(w, k, c);
    }
    if InSet(c, w) {
      var k :| 0 <= k < |w| && Admits(w, k, c);
      assert k < n - 1 ==> Admits(u, k, c);
    }
  }

  // ----- patterns -----

  /** The strings that a pattern accepts. */
  ghost predicate Accepted(pattern: seq<Char16>, w: seq<Char16>)
    requires SetsClosed(pattern)
  {
    Denotes(Tokens(pattern), w)
  }

  lemma SingleToken(t: Token, w: seq<Char16>)
    ensures Denotes([t], w) <==> Fits(t, w)
  {
    if Fits(t, w) {
      var pieces := [w];
      assert pieces[1..] == [] && Flatten(pieces) == w + [] == w;
      assert Splits([t], w, pieces);
    }
    if pieces :| Splits([t], w, pieces) {
      assert pieces == [pieces[0]] && pieces[1..] == [] && Flatten(pieces) == pieces[0] + [];
      assert Fits([t][0], pieces[0]);
    }
  }

  lemma SingleCharacter(p: Char16)
    requires p != 0x5B
    ensures SetsClosed([p])
    ensures Tokens([p]) == [if p == 0x2A then Anything else if p == 0x3F then AnyOne else Exactly(p)]
  {
    assert [p][1..] == [];
  }

  /** "*" accepts every string. */
  lemma StarAccepts(w: seq<Char16>)
    ensures SetsClosed([0x2A]) && Accepted([0x2A], w)
  {
    SingleCharacter(0x2A);
    SingleToken(Anything, w);
  }

  /** "?" accepts exactly the strings of one character. */
  lemma QuestionAccepts(w: seq<Char16>)
    ensures SetsClosed([0x3F]) && (Accepted([0x3F], w) <==> |w| == 1)
  {
    SingleCharacter(0x3F);
    SingleToken(AnyOne, w);
  }

  /** Any other character but an opening bracket accepts itself. */
  lemma LiteralAccepts(p: Char16, w: seq<Char16>)
    requires p != 0x2A && p != 0x3F && p != 0x5B
    ensures SetsClosed([p]) && (Accepted([p], w) <==> w == [p])
  {
    SingleCharacter(p);
    SingleToken(Exactly(p), w);
  }

  lemma {:induction false} FirstCloseOf(u: seq<Char16>, rest: seq<Char16>)
    requires 0x5D !in u
    ensures FirstClose(u + [0x5D] + rest) == |u|
  {
    var t := u + [0x5D] + rest;
    if |u| > 0 {
      assert t[1..] == u[1..] + [0x5D] + rest && t[0] == u[0] && u[0] in u;
      FirstCloseOf(u[1..], rest);
    }
  }

  /** A set in brackets accepts exactly the strings of one character that it admits. */
  lemma SetAccepts(u: seq<Char16>, w: seq<Char16>)
    requires 0x5D !in u
    ensures SetsClosed([0x5B] + u + [0x5D])
    ensures Accepted([0x5B] + u + [0x5D], w) <==> |w| == 1 && InSet(w[0], u)
  {
    var t := [0x5B] + u + [0x5D];
    FirstCloseOf(u, []);
    assert t[1..] == u + [0x5D] + [] && t[1..][..|u|] == u && t[1..][|u| + 1..] == [];
    assert Tokens(t) == [OneOf(u)] + [];
    assert [OneOf(u)] + [] == [OneOf(u)];
    SingleToken(OneOf(u), w);
  }

  /** "[a-b]" accepts exactly the strings of one character of the range. */
  lemma RangeAccepts(a: Char16, b: Char16, w: seq<Char16>)
    requires a != 0x2D && b != 0x2D && a != 0x5D && b != 0x5D
    ensures SetsClosed([0x5B, a, 0x2D, b, 0x5D])
    ensures Accepted([0x5B, a, 0x2D, b, 0x5D], w) <==> |w| == 1 && (a <= w[0] <= b || w[0] == a || w[0] == b)
  {
    var u := [a, 0x2D, b];
    assert [0x5B, a, 0x2D, b, 0x5D] == [0x5B] + u + [0x5D];
    SetAccepts(u, w);
    if |w| == 1 {
      RangeAdmits(a, b, w[0]);
    }
  }

  /** "[0-9]" accepts "5". */
  lemma DigitAccepted()
    ensures SetsClosed([0x5B, 0x30, 0x2D, 0x39, 0x5D]) && Accepted([0x5B, 0x30, 0x2D, 0x39, 0x5D], [0x35])
  {
    RangeAccepts(0x30, 0x39, [0x35]);
  }

  // ----- patterns one after the other -----

  /** The tokens of joined patterns are those of both. */
  lemma {:induction false} TokensJoined(t: seq<Char16>, u: seq<Char16>)
    requires SetsClosed(t) && SetsClosed(u)
    ensures SetsClosed(t + u) && Tokens(t + u) == Tokens(t) + Tokens(u)
    decreases |t|
  {
    if |t| == 0 {
      assert t + u == u && [] + Tokens(u) == Tokens(u);
    } else {
      assert (t + u)[1..] == t[1..] + u;
      if t[0] != 0x5B {
        TokensJoined(t[1..], u);
      } else {
        SetTokensJoined(t, u);
      }
    }
  }

  /** A pattern that starts with a set: its members, and the pattern after the set. */
  lemma SetFirst(t: seq<Char16>, members: seq<Char16>, rest: seq<Char16>)
    requires t == [0x5B] + members + [0x5D] + rest && 0x5D !in members
    ensures SetsClosed(t) <==> SetsClosed(rest)
    ensures SetsClosed(t) ==> Tokens(t) == [OneOf(members)] + Tokens(rest)
  {
    var body := t[1..];
    assert body == members + [0x5D] + rest;
    FirstCloseOf(members, rest);
    assert body[..|members|] == members && body[|members| + 1..] == rest;
  }

  lemma {:induction false} SetTokensJoined(t: seq<Char16>, u: seq<Char16>)
    requires SetsClosed(t) && SetsClosed(u) && |t| > 0 && t[0] == 0x5B
    ensures SetsClosed(t + u) && Tokens(t + u) == Tokens(t) + Tokens(u)
    decreases |t|, 0
  {
    var k := FirstClose(t[1..]);
    var members, rest := t[1..][..k], t[1..][k + 1..];
    assert t == [0x5B] + members + [0x5D] + rest;
    JoinAfterSet(members, rest, u);
    SetFirst(t, members, rest);
    SetFirst(t + u, members, rest + u);
    TokensJoined(rest, u);
    ConcatAssociative([OneOf(members)], Tokens(rest), Tokens(u));
  }

  lemma JoinAfterSet(members: seq<Char16>, rest: seq<Char16>, u: seq<Char16>)
    ensures ([0x5B] + members + [0x5D] + rest) + u == [0x5B] + members + [0x5D] + (rest + u)
  {}

  lemma {:induction false} FlattenConcat(a: seq<seq<Char16>>, b: seq<seq<Char16>>)
    ensures Flatten(a + b) == Flatten(a) + Flatten(b)
    decreases |a|
  {
    if |a| == 0 {
      assert a + b == b;
    } else {
      assert (a + b)[1..] == a[1..] + b;
      FlattenConcat(a[1..], b);
    }
  }

  /** Joined patterns accept exactly the strings that split into one that each accepts. */
  lemma JoinedAccept(t: seq<Char16>, u: seq<Char16>, w: seq<Char16>)
    requires SetsClosed(t) && SetsClosed(u)
    ensures SetsClosed(t + u)
    ensures Accepted(t + u, w) <==> exists k :: 0 <= k <= |w| && Accepted(t, w[..k]) && Accepted(u, w[k..])
  {
    TokensJoined(t, u);
    DenotesJoined(Tokens(t), Tokens(u), w);
  }

  lemma DenotesJoined(xs: seq<Token>, ys: seq<Token>, w: seq<Char16>)
    ensures Denotes(xs + ys, w) <==> exists k :: 0 <= k <= |w| && Denotes(xs, w[..k]) && Denotes(ys, w[k..])
  {
    if pieces :| Splits(xs + ys, w, pieces) {
      var k := SplitPieces(xs, ys, w, pieces);
    }
    if k :| 0 <= k <= |w| && Denotes(xs, w[..k]) && Denotes(ys, w[k..]) {
      JoinPieces(xs, ys, w, k);
    }
  }

  lemma SplitPieces(xs: seq<Token>, ys: seq<Token>, w: seq<Char16>, pieces: seq<seq<Char16>>) returns (k: nat)
    requires Splits(xs + ys, w, pieces)
    ensures k <= |w| && Denotes(xs, w[..k]) && Denotes(ys, w[k..])
  {
    var a, b := pieces[..|xs|], pieces[|xs|..];
    assert pieces == a + b;
    FlattenConcat(a, b);
    k := |Flatten(a)|;
    assert w[..k] == Flatten(a) && w[k..] == Flatten(b);
    forall i | 0 <= i < |xs| ensures Fits(xs[i], a[i]) {
      assert (xs + ys)[i] == xs[i] && Fits((xs + ys)[i], pieces[i]);
    }
    forall i | 0 <= i < |ys| ensures Fits(ys[i], b[i]) {
      assert (xs + ys)[|xs| + i] == ys[i] && Fits((xs + ys)[|xs| + i], pieces[|xs| + i]);
    }
    assert Splits(xs, w[..k], a) && Splits(ys, w[k..], b);
  }

  lemma JoinPieces(xs: seq<Token>, ys: seq<Token>, w: seq<Char16>, k: nat)
    requires k <= |w| && Denotes(xs, w[..k]) && Denotes(ys, w[k..])
    ensures Denotes(xs + ys, w)
  {
    var a :| Splits(xs, w[..k], a);
    var b :| Splits(ys, w[k..], b);
    FlattenConcat(a, b);
    assert w == w[..k] + w[k..];
    assert Splits(xs + ys, w, a + b);
  }
}
