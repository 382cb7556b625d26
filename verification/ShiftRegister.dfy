/**
 Linear shift registers over an arbitrary word type, the algebra behind the CRC of
 bootloader/gnu-efi/lib/crc.c.

 A register has an addition (xor), a step, the words unit(0), ..., unit(31) with a single bit set, and
 the test whether the bit about to be shifted out is set.  Messages are bit strings: each bit is added
 to the outgoing end and the register steps.  Two results carry the CRC proofs: feeding n <= 32 bits is
 adding them all at once and then stepping n times, and a register forgets nothing, so that no change
 confined to 32 consecutive bits can go unnoticed.
 */
module ShiftRegister {

  const WIDTH := 32

  datatype Register<!W(!new, ==)> = Register(
    xor: (W, W) -> W,
    zero: W,
    step: W -> W,
    unit: nat -> W,
    low: W -> bool
  ) {

    ghost predicate LinearAt(a: W, b: W) {
      step(xor(a, b)) == xor(step(a), step(b))
    }

    ghost predicate AssociativeAt(a: W, b: W, c: W) {
      xor(xor(a, b), c) == xor(a, xor(b, c))
    }

    ghost predicate IdentityAt(a: W) {
      xor(a, zero) == a && xor(zero, a) == a
    }

    ghost predicate Linear() {
      forall a, b :: LinearAt(a, b)
    }

    ghost predicate Group() {
      && (forall a :: IdentityAt(a))
      && (forall a, b, c :: AssociativeAt(a, b, c))
      && step(zero) == zero
    }

    ghost predicate Injective() {
      && (forall a, b :: step(a) == step(b) ==> a == b)
      && (forall a, b, x :: xor(a, x) == xor(b, x) ==> a == b)
    }

    ghost predicate ShiftAt(i: nat) {
      step(unit(i + 1)) == unit(i)
    }

    ghost predicate UnitAt(i: nat) {
      low(unit(i)) == (i == 0)
    }

    ghost predicate LowAt(a: W, b: W) {
      low(xor(a, b)) == (low(a) != low(b))
    }

    ghost predicate Bits() {
      && (forall i: nat :: i + 1 < WIDTH ==> ShiftAt(i))
      && (forall i: nat :: i < WIDTH ==> UnitAt(i))
      && (forall a, b :: LowAt(a, b))
      && !low(zero)
    }

    /** The step is linear and injective, and moves each single bit one place towards the low end. */
    ghost predicate Laws() {
      Linear() && Group() && Injective() && Bits()
    }

    function Scaled(bit: bool, i: nat): W {
      if bit then unit(i) else zero
    }

    /** Feeds a message bit by bit. */
    function Feed(c: W, bits: seq<bool>): W {
      if |bits| == 0 then c else Feed(step(xor(c, Scaled(bits[0], 0))), bits[1..])
    }

    /** Adds bit j of the message at position k + j, for all j at once. */
    function Mix(c: W, bits: seq<bool>, k: nat): W
      decreases |bits|
    {
      if |bits| == 0 then c else Mix(xor(c, Scaled(bits[0], k)), bits[1..], k + 1)
    }

    function Steps(n: nat, c: W): W {
      if n == 0 then c else Steps(n - 1, step(c))
    }

    lemma {:induction false} StepMix(c: W, bits: seq<bool>, k: nat)
      requires Laws() && k + 1 + |bits| <= WIDTH
      ensures step(Mix(c, bits, k + 1)) == Mix(step(c), bits, k)
      decreases |bits|
    {
      if |bits| != 0 {
        assert ShiftAt(k);
        assert LinearAt(c, Scaled(bits[0], k + 1));
        StepMix(xor(c, Scaled(bits[0], k + 1)), bits[1..], k + 1);
      }
    }

    /** Feeding n bits is adding them all and stepping n times. */
    lemma {:induction false} FeedIsMix(c: W, bits: seq<bool>)
      requires Laws() && |bits| <= WIDTH
      ensures Feed(c, bits) == Steps(|bits|, Mix(c, bits, 0))
      decreases |bits|
    {
      if |bits| != 0 {
        var c1 := xor(c, Scaled(bits[0], 0));
        FeedIsMix(step(c1), bits[1..]);
        StepMix(c1, bits[1..], 0);
      }
    }

    lemma EightSteps(c: W)
      ensures Steps(8, c) == step(step(step(step(step(step(step(step(c))))))))
    {
      var d := step(step(step(step(c))));
      assert Steps(8, c) == Steps(7, step(c)) == Steps(6, step(step(c)));
      assert Steps(6, step(step(c))) == Steps(5, step(step(step(c)))) == Steps(4, d);
      assert Steps(4, d) == Steps(3, step(d)) == Steps(2, step(step(d)));
      assert Steps(2, step(step(d))) == Steps(1, step(step(step(d))));
    }

    lemma {:induction false} MixFromZero(c: W, bits: seq<bool>, k: nat)
      requires Laws()
      ensures Mix(c, bits, k) == xor(c, Mix(zero, bits, k))
      decreases |bits|
    {
      assert IdentityAt(c);
      if |bits| != 0 {
        var e := Scaled(bits[0], k);
        MixFromZero(xor(c, e), bits[1..], k + 1);
        MixFromZero(xor(zero, e), bits[1..], k + 1);
        assert IdentityAt(e) && AssociativeAt(c, e, Mix(zero, bits[1..], k + 1));
      }
    }

    function XorTwo(c: W, x: bool, y: bool, k: nat): W {
      xor(xor(c, Scaled(x, k)), Scaled(y, k + 1))
    }

    lemma MixTwo(c: W, bits: seq<bool>, k: nat)
      requires |bits| >= 2
      ensures Mix(c, bits, k) == Mix(XorTwo(c, bits[0], bits[1], k), bits[2..], k + 2)
    {
      assert bits[1..][1..] == bits[2..];
      assert Mix(c, bits, k) == Mix(xor(c, Scaled(bits[0], k)), bits[1..], k + 1);
    }

    lemma MixFour(c: W, bits: seq<bool>, k: nat)
      requires |bits| >= 4
      ensures Mix(c, bits, k)
           == Mix(XorTwo(XorTwo(c, bits[0], bits[1], k), bits[2], bits[3], k + 2), bits[4..], k + 4)
    {
      MixTwo(c, bits, k);
      assert bits[2..][2..] == bits[4..];
      MixTwo(XorTwo(c, bits[0], bits[1], k), bits[2..], k + 2);
    }

    lemma MixEight(bits: seq<bool>, lower: W, all: W)
      requires |bits| == 8
      requires lower == XorTwo(XorTwo(zero, bits[0], bits[1], 0), bits[2], bits[3], 2)
      requires all == XorTwo(XorTwo(lower, bits[4], bits[5], 4), bits[6], bits[7], 6)
      ensures Mix(zero, bits, 0) == all
    {
      MixFour(zero, bits, 0);
      MixFour(lower, bits[4..], 4);
      assert bits[4..][4..] == [];
    }

    lemma {:induction false} FeedConcat(c: W, a: seq<bool>, b: seq<bool>)
      ensures Feed(c, a + b) == Feed(Feed(c, a), b)
      decreases |a|
    {
      if |a| == 0 {
        assert a + b == b;
      } else {
        assert (a + b)[1..] == a[1..] + b;
        FeedConcat(step(xor(c, Scaled(a[0], 0))), a[1..], b);
      }
    }

    lemma {:induction false} StepsLinear(n: nat, a: W, b: W)
      requires Laws()
      ensures Steps(n, xor(a, b)) == xor(Steps(n, a), Steps(n, b))
    {
      if n != 0 {
        assert LinearAt(a, b);
        StepsLinear(n - 1, step(a), step(b));
      }
    }

    lemma {:induction false} StepsInjective(n: nat, a: W, b: W)
      requires Laws() && Steps(n, a) == Steps(n, b)
      ensures a == b
    {
      if n != 0 {
        StepsInjective(n - 1, step(a), step(b));
      }
    }

    /** Bits added above position 0 do not reach the outgoing bit. */
    lemma {:induction false} LowMix(c: W, bits: seq<bool>, k: nat)
      requires Laws() && 0 < k && k + |bits| <= WIDTH
      ensures low(Mix(c, bits, k)) == low(c)
      decreases |bits|
    {
      if |bits| != 0 {
        assert UnitAt(k) && LowAt(c, Scaled(bits[0], k));
        LowMix(xor(c, Scaled(bits[0], k)), bits[1..], k + 1);
      }
    }

    /** Different bit strings of the same length, at most 32, add up to different words. */
    lemma {:induction false} MixInjective(c: W, v: seq<bool>, w: seq<bool>)
      requires Laws() && |v| == |w| <= WIDTH
      requires Mix(c, v, 0) == Mix(c, w, 0)
      ensures v == w
      decreases |v|
    {
      if |v| != 0 {
        var cv, cw := xor(c, Scaled(v[0], 0)), xor(c, Scaled(w[0], 0));
        LowMix(cv, v[1..], 1);
        LowMix(cw, w[1..], 1);
        assert UnitAt(0) && LowAt(c, Scaled(v[0], 0)) && LowAt(c, Scaled(w[0], 0));
        assert low(cv) == (low(c) != v[0]) && low(cw) == (low(c) != w[0]);
        StepMix(cv, v[1..], 0);
        StepMix(cw, w[1..], 0);
        MixInjective(step(cv), v[1..], w[1..]);
        assert v == [v[0]] + v[1..] && w == [w[0]] + w[1..];
      }
    }

    /** From one state, equally long bit strings of at most 32 bits that reach one state are equal. */
    lemma BurstInjective(c: W, v: seq<bool>, w: seq<bool>)
      requires Laws() && |v| == |w| <= WIDTH
      requires Feed(c, v) == Feed(c, w)
      ensures v == w
    {
      FeedIsMix(c, v);
      FeedIsMix(c, w);
      StepsInjective(|v|, Mix(c, v, 0), Mix(c, w, 0));
      MixInjective(c, v, w);
    }

    /** A common suffix cannot bring two states together. */
    lemma {:induction false} SuffixInjective(c: W, d: W, bits: seq<bool>)
      requires Laws()
      requires Feed(c, bits) == Feed(d, bits)
      ensures c == d
      decreases |bits|
    {
      if |bits| != 0 {
        SuffixInjective(step(xor(c, Scaled(bits[0], 0))), step(xor(d, Scaled(bits[0], 0))), bits[1..]);
      }
    }

    /** A change confined to 32 consecutive bits always changes the final state. */
    lemma BurstDetected(c: W, head: seq<bool>, v: seq<bool>, w: seq<bool>, tail: seq<bool>)
      requires Laws()
      requires |v| == |w| <= WIDTH && v != w
      ensures Feed(c, head + v + tail) != Feed(c, head + w + tail)
    {
      FeedConcat(c, head + v, tail);
      FeedConcat(c, head + w, tail);
      FeedConcat(c, head, v);
      FeedConcat(c, head, w);
      if Feed(c, head + v + tail) == Feed(c, head + w + tail) {
        SuffixInjective(Feed(c, head + v), Feed(c, head + w), tail);
        BurstInjective(Feed(c, head), v, w);
      }
    }
  }
}
