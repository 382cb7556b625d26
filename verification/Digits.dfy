/** Positional notation, shared by the number printers and parsers. */
module Digits {
  import opened Basics

  type Base = b: nat | b == 10 || b == 16 witness 10

  function Times(base: Base, x: int): int {
    if base == 10 then 10 * x else 16 * x
  }

  function Quotient(base: Base, v: nat): nat {
    if base == 10 then v / 10 else v / 16
  }

  function Remainder(base: Base, v: nat): (d: nat)
    ensures d < base && v == Times(base, Quotient(base, v)) + d
  {
    if base == 10 then v % 10 else v % 16
  }

  /** The digits of v, least significant first; none for zero. */
  function LowDigits(base: Base, v: nat): seq<nat>
    decreases v
  {
    if v == 0 then [] else [Remainder(base, v)] + LowDigits(base, Quotient(base, v))
  }

  ghost predicate AreDigits(base: Base, ds: seq<nat>) {
    forall k :: 0 <= k < |ds| ==> ds[k] < base
  }

  function Reverse<T>(s: seq<T>): (r: seq<T>)
    ensures |r| == |s|
  {
    if |s| == 0 then [] else Reverse(s[1..]) + [s[0]]
  }

  lemma {:induction false} ReverseAt<T>(s: seq<T>, k: nat)
    requires k < |s|
    ensures Reverse(s)[k] == s[|s| - 1 - k]
  {
    if k < |s| - 1 {
      ReverseAt(s[1..], k);
    }
  }

  /** The digits of v as written: most significant first, a single zero for zero. */
  function Written(base: Base, v: nat): seq<nat> {
    if v == 0 then [0] else Reverse(LowDigits(base, v))
  }

  /** The number that a digit string continues to denote after acc. */
  function Value(base: Base, acc: nat, ds: seq<nat>): nat
    decreases |ds|
  {
    if |ds| == 0 then acc else Value(base, Times(base, acc) + ds[0], ds[1..])
  }

  lemma {:induction false} LowDigitsAreDigits(base: Base, v: nat)
    ensures AreDigits(base, LowDigits(base, v))
    decreases v
  {
    if v != 0 {
      LowDigitsAreDigits(base, Quotient(base, v));
    }
  }

  lemma {:induction false} ValueAppend(base: Base, acc: nat, ds: seq<nat>, d: nat)
    ensures Value(base, acc, ds + [d]) == Times(base, Value(base, acc, ds)) + d
    decreases |ds|
  {
    if |ds| == 0 {
      assert ds + [d] == [d] && [d][1..] == [];
      assert Value(base, acc, [d]) == Value(base, Times(base, acc) + d, []);
    } else {
      assert (ds + [d])[1..] == ds[1..] + [d];
      ValueAppend(base, Times(base, acc) + ds[0], ds[1..], d);
    }
  }

  lemma {:induction false} ReverseLowValue(base: Base, v: nat)
    ensures Value(base, 0, Reverse(LowDigits(base, v))) == v
    decreases v
  {
    if v != 0 {
      var rest := LowDigits(base, Quotient(base, v));
      assert LowDigits(base, v)[1..] == rest;
      ReverseLowValue(base, Quotient(base, v));
      ValueAppend(base, 0, Reverse(rest), Remainder(base, v));
    }
  }

  /** Written digits denote the number they were written from. */
  lemma WrittenValue(base: Base, v: nat)
    ensures Value(base, 0, Written(base, v)) == v
    ensures AreDigits(base, Written(base, v)) && |Written(base, v)| > 0
  {
    if v == 0 {
      assert [0][1..] == [] && Value(base, 0, [0]) == Value(base, 0, []);
    } else {
      var low := LowDigits(base, v);
      ReverseLowValue(base, v);
      LowDigitsAreDigits(base, v);
      ReverseDigits(base, low);
    }
  }

  lemma {:induction false} ReverseDigits(base: Base, ds: seq<nat>)
    requires AreDigits(base, ds)
    ensures AreDigits(base, Reverse(ds))
  {
    if |ds| > 0 {
      ReverseDigits(base, ds[1..]);
    }
  }

  function Pow(base: Base, n: nat): nat {
    if n == 0 then 1 else Times(base, Pow(base, n - 1))
  }

  lemma {:induction false} LowDigitsCount(base: Base, v: nat, n: nat)
    requires v < Pow(base, n)
    ensures |LowDigits(base, v)| <= n
    decreases v
  {
    if v != 0 {
      assert n > 0;
      assert Quotient(base, v) < Pow(base, n - 1);
      LowDigitsCount(base, Quotient(base, v), n - 1);
    }
  }

  // ----- digits as characters -----

  const ZERO: Char16 := 0x30
  const NINE: Char16 := 0x39
  const UPPER_A: Char16 := 0x41
  const UPPER_F: Char16 := 0x46
  const LOWER_A: Char16 := 0x61
  const LOWER_F: Char16 := 0x66

  function DigitChar(d: nat): Char16 {
    if d < 10 then ZERO + d else if d < 16 then UPPER_A + (d - 10) else 0x3F
  }

  function Chars(ds: seq<nat>): (s: seq<Char16>)
    ensures |s| == |ds|
  {
    if |ds| == 0 then [] else [DigitChar(ds[0])] + Chars(ds[1..])
  }

  lemma {:induction false} CharsAt(ds: seq<nat>, k: nat)
    requires k < |ds|
    ensures Chars(ds)[k] == DigitChar(ds[k])
  {
    if k > 0 {
      CharsAt(ds[1..], k - 1);
    }
  }

  lemma {:induction false} CharsConcat(a: seq<nat>, b: seq<nat>)
    ensures Chars(a + b) == Chars(a) + Chars(b)
    decreases |a|
  {
    if |a| == 0 {
      assert a + b == b;
    } else {
      assert (a + b)[1..] == a[1..] + b;
      CharsConcat(a[1..], b);
    }
  }

  /** Digits are written with characters from '0' on. */
  lemma CharsFromZero(ds: seq<nat>)
    ensures forall k :: 0 <= k < |ds| ==> Chars(ds)[k] >= ZERO
  {
    forall k | 0 <= k < |ds| ensures Chars(ds)[k] >= ZERO {
      CharsAt(ds, k);
    }
  }

  /** The text of v in the given base. */
  function Text(base: Base, v: nat): seq<Char16> {
    Chars(Written(base, v))
  }

  lemma {:induction false} ReverseChars(ds: seq<nat>)
    ensures Reverse(Chars(ds)) == Chars(Reverse(ds))
  {
    if |ds| > 0 {
      ReverseChars(ds[1..]);
      assert Chars(ds)[1..] == Chars(ds[1..]);
      CharsConcat(Reverse(ds[1..]), [ds[0]]);
      assert [ds[0]][1..] == [];
    }
  }

  function Magnitude(v: int): nat {
    if v < 0 then -v else v
  }

  // ----- 64-bit words -----

  const TWO64 := 0x1_0000_0000_0000_0000
  const TWO63 := 0x8000_0000_0000_0000

  lemma Below64(v: nat)
    requires v < TWO64
    ensures |LowDigits(16, v)| <= 16 && |LowDigits(10, v)| <= 20
  {
    assert Pow(16, 4) == 0x1_0000;
    assert Pow(16, 8) == 0x1_0000_0000;
    assert Pow(16, 12) == 0x1_0000_0000_0000;
    assert Pow(16, 16) == TWO64;
    LowDigitsCount(16, v, 16);
    assert Pow(10, 5) == 100000;
    assert Pow(10, 10) == 10000000000;
    assert Pow(10, 15) == 1000000000000000;
    assert Pow(10, 20) == 100000000000000000000;
    LowDigitsCount(10, v, 20);
  }

  /** The value kept by a 64-bit unsigned variable. */
  function Mod64(x: int): (r: nat)
    ensures r < TWO64 && (0 <= x < TWO64 ==> r == x)
  {
    x % 0x1_0000_0000_0000_0000
  }

  lemma ModMultiple(k: int, x: int)
    ensures (k * 0x1_0000_0000_0000_0000 + x) % 0x1_0000_0000_0000_0000 == x % 0x1_0000_0000_0000_0000
  {}

  /** Reducing before or after one more digit makes no difference. */
  lemma ModStep(base: Base, acc: int, d: int)
    ensures Mod64(Times(base, Mod64(acc)) + d) == Mod64(Times(base, acc) + d)
  {
    var q, r := acc / 0x1_0000_0000_0000_0000, acc % 0x1_0000_0000_0000_0000;
    if base == 10 {
      ModMultiple(q * 10, r * 10 + d);
    } else {
      ModMultiple(q * 16, r * 16 + d);
    }
  }
}
