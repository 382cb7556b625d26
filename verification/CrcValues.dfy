/**
 What the CRC of bootloader/gnu-efi/lib/crc.c comes to, apart from how it is computed: its value on known messages,
 the residue that a message leaves together with its own CRC, and where the bytes of a table header go.
 */
module CrcValues {
  import opened Crc32Table
  import opened Crc

  // ----- the residue -----

  /** Adding a byte of a word before eight steps, and the rest of the word after them, is adding the word before. */
  lemma ByteThenRest(r: bv32, w: bv32)
    ensures Xor(EightSteps(Xor(r, w & 0xFF)), w >> 8) == EightSteps(Xor(r, w))
  {
    SplitWord(w);
    EightStepsXor(Xor(r, w & 0xFF), w & 0xFFFF_FF00);
    EightShifts(w & 0xFFFF_FF00);
    XorAssociative(r, w & 0xFF, w & 0xFFFF_FF00);
  }

  /** The byte b takes the register from c to d. */
  ghost predicate Carries(c: bv32, b: bv8, d: bv32) {
    forall rest :: FeedBits(c, ByteBits(b) + rest) == FeedBits(d, rest)
  }

  lemma EightCarries(c: bv32, b: bv8, x: bv32, d: bv32)
    requires x == Xor(c, b as bv32) && d == EightSteps(x)
    ensures Carries(c, b, d)
  {
    EightIsSteps(x);
    forall rest ensures FeedBits(c, ByteBits(b) + rest) == FeedBits(d, rest) {
      FeedNextByte(c, b, rest);
    }
  }

  lemma FeedFrom(c: bv32, next: bv32, d: seq<bv8>, i: nat)
    requires i < |d| && Carries(c, d[i], next)
    ensures FeedBits(c, MessageBits(d[i..])) == FeedBits(next, MessageBits(d[i + 1..]))
  {
    assert d[i..][0] == d[i] && d[i..][1..] == d[i + 1..];
  }

  /** Bytes that take the register from each of some values to the next. */
  lemma {:induction false} FeedRun(d: seq<bv8>, c: seq<bv32>, i: nat)
    requires i <= |d| && |c| == |d| + 1 && forall k :: 0 <= k < |d| ==> Carries(c[k], d[k], c[k + 1])
    ensures FeedBits(c[i], MessageBits(d[i..])) == c[|d|]
    decreases |d| - i
  {
    if i < |d| {
      FeedFrom(c[i], c[i + 1], d, i);
      FeedRun(d, c, i + 1);
    } else {
      assert d[i..] == [];
    }
  }

  lemma FeedAll(d: seq<bv8>, c: seq<bv32>)
    requires |c| == |d| + 1 && forall k :: 0 <= k < |d| ==> Carries(c[k], d[k], c[k + 1])
    ensures FeedBits(c[0], MessageBits(d)) == c[|d|]
  {
    FeedRun(d, c, 0);
    assert d[0..] == d;
  }

  /** The low byte of w, when the register and w together are x. */
  lemma FeedLowByte(c: bv32, w: bv32, x: bv32, b: bv8, later: bv32, next: bv32) returns (d: bv32)
    requires x == Xor(c, w) && b as bv32 == w & 0xFF && later == w >> 8 && next == EightSteps(x)
    ensures Carries(c, b, d) && Xor(d, later) == next
  {
    var y := Xor(c, w & 0xFF);
    d := EightSteps(y);
    ByteThenRest(c, w);
    EightCarries(c, b, y, d);
  }

  lemma First(c: bv32, w: bv32, b: bv8, later: bv32) returns (d: bv32)
    requires Xor(c, w) == 0xFFFF_FFFF && b as bv32 == w & 0xFF && later == w >> 8
    ensures Carries(c, b, d) && Xor(d, later) == 0x2DFD_1072
  {
    ResidueSteps();
    d := FeedLowByte(c, w, 0xFFFF_FFFF, b, later, 0x2DFD_1072);
  }

  lemma Second(c: bv32, w: bv32, b: bv8, later: bv32) returns (d: bv32)
    requires Xor(c, w) == 0x2DFD_1072 && b as bv32 == w & 0xFF && later == w >> 8
    ensures Carries(c, b, d) && Xor(d, later) == 0xBE26_ED00
  {
    ResidueSteps();
    d := FeedLowByte(c, w, 0x2DFD_1072, b, later, 0xBE26_ED00);
  }

  lemma Third(c: bv32, w: bv32, b: bv8, later: bv32) returns (d: bv32)
    requires Xor(c, w) == 0xBE26_ED00 && b as bv32 == w & 0xFF && later == w >> 8
    ensures Carries(c, b, d) && Xor(d, later) == 0x00BE_26ED
  {
    ResidueSteps();
    d := FeedLowByte(c, w, 0xBE26_ED00, b, later, 0x00BE_26ED);
  }

  lemma Fourth(c: bv32, w: bv32, b: bv8) returns (d: bv32)
    requires Xor(c, w) == 0x00BE_26ED && b as bv32 == w & 0xFF && w >> 8 == 0
    ensures Carries(c, b, d) && d == 0xDEBB_20E3
  {
    ResidueSteps();
    d := FeedLowByte(c, w, 0x00BE_26ED, b, 0, 0xDEBB_20E3);
    XorZero(d);
  }

  /** The four bytes of the complement of the register. */
  lemma FeedComplement(c: bv32, w: bv32, w1: bv32, w2: bv32, w3: bv32, b: seq<bv8>) returns (d: seq<bv32>)
    requires Xor(c, w) == 0xFFFF_FFFF && |b| == 4 && w1 == w >> 8 && w2 == w1 >> 8 && w3 == w2 >> 8 && w3 >> 8 == 0
    requires b[0] as bv32 == w & 0xFF && b[1] as bv32 == w1 & 0xFF && b[2] as bv32 == w2 & 0xFF && b[3] as bv32 == w3 & 0xFF
    ensures |d| == 5 && d[0] == c && d[4] == 0xDEBB_20E3 && forall k :: 0 <= k < 4 ==> Carries(d[k], b[k], d[k + 1])
  {
    var d1 := First(c, w, b[0], w1);
    var d2 := Second(d1, w1, b[1], w2);
    var d3 := Third(d2, w2, b[2], w3);
    var d4 := Fourth(d3, w3, b[3]);
    d := [c, d1, d2, d3, d4];
  }

  lemma BytesOf(w: bv32)
    ensures var b := U32Bytes(w);
            && b[0] as bv32 == w & 0xFF && b[1] as bv32 == (w >> 8) & 0xFF
            && b[2] as bv32 == (w >> 16) & 0xFF && b[3] as bv32 == (w >> 24) & 0xFF
    ensures (w >> 8) >> 8 == w >> 16 && (w >> 16) >> 8 == w >> 24 && (w >> 24) >> 8 == 0
  {}

  lemma XorZero(r: bv32)
    ensures Xor(r, 0) == r
  {}

  lemma Complement(c: bv32)
    ensures Xor(c, c ^ 0xFFFF_FFFF) == 0xFFFF_FFFF
  {}

  lemma WordParts(w: bv32, b: seq<bv8>) returns (w1: bv32, w2: bv32, w3: bv32)
    requires b == U32Bytes(w)
    ensures |b| == 4 && w1 == w >> 8 && w2 == w1 >> 8 && w3 == w2 >> 8 && w3 >> 8 == 0
    ensures b[0] as bv32 == w & 0xFF && b[1] as bv32 == w1 & 0xFF && b[2] as bv32 == w2 & 0xFF && b[3] as bv32 == w3 & 0xFF
  {
    BytesOf(w);
    w1 := w >> 8;
    w2 := w1 >> 8;
    w3 := w2 >> 8;
  }

  lemma ComplementCarries(c: bv32, w: bv32, b: seq<bv8>) returns (d: seq<bv32>)
    requires Xor(c, w) == 0xFFFF_FFFF && b == U32Bytes(w)
    ensures |b| == 4 && |d| == 5 && d[0] == c && d[4] == 0xDEBB_20E3 && forall k :: 0 <= k < 4 ==> Carries(d[k], b[k], d[k + 1])
  {
    var w1, w2, w3 := WordParts(w, b);
    d := FeedComplement(c, w, w1, w2, w3, b);
  }

  lemma ResidueSteps()
    ensures EightSteps(0xFFFF_FFFF) == 0x2DFD_1072 && EightSteps(0x2DFD_1072) == 0xBE26_ED00
    ensures EightSteps(0xBE26_ED00) == 0x00BE_26ED && EightSteps(0x00BE_26ED) == 0xDEBB_20E3
  {}

  lemma {:induction false} FeedConcat(c: bv32, a: seq<bool>, b: seq<bool>)
    ensures FeedBits(c, a + b) == FeedBits(FeedBits(c, a), b)
    decreases |a|
  {
    if |a| == 0 {
      assert a + b == b;
    } else {
      assert (a + b)[1..] == a[1..] + b;
      FeedConcat(BitStep(if a[0] then c ^ 1 else c), a[1..], b);
    }
  }

  /** Every message followed by the bytes of its CRC leaves the same register. */
  lemma Residue(data: seq<bv8>, crc: bv32, b: seq<bv8>)
    requires crc == Crc32(data) && b == U32Bytes(crc)
    ensures FeedBits(0xFFFF_FFFF, MessageBits(data + b)) == 0xDEBB_20E3
  {
    var c := FeedBits(0xFFFF_FFFF, MessageBits(data));
    Complement(c);
    var d := ComplementCarries(c, crc, b);
    AfterData(data, b, c, d);
  }

  lemma AfterData(data: seq<bv8>, b: seq<bv8>, c: bv32, d: seq<bv32>)
    requires c == FeedBits(0xFFFF_FFFF, MessageBits(data)) && |d| == |b| + 1 && d[0] == c
    requires forall k :: 0 <= k < |b| ==> Carries(d[k], b[k], d[k + 1])
    ensures FeedBits(0xFFFF_FFFF, MessageBits(data + b)) == d[|b|]
  {
    MessageBitsConcat(data, b);
    FeedConcat(0xFFFF_FFFF, MessageBits(data), MessageBits(b));
    FeedAll(b, d);
  }

  // ----- known values -----

  lemma EmptyMessage()
    ensures Crc32([]) == 0
  {}

  lemma CheckSteps()
    ensures Carries(0xFFFF_FFFF, 0x31, 0x7C23_1048) && Carries(0x7C23_1048, 0x32, 0xB0AC_BB32)
    ensures Carries(0xB0AC_BB32, 0x33, 0x77B7_9C2D) && Carries(0x77B7_9C2D, 0x34, 0x641C_1F5C)
    ensures Carries(0x641C_1F5C, 0x35, 0x340A_C5E3) && Carries(0x340A_C5E3, 0x36, 0xF68D_2C9E)
    ensures Carries(0xF68D_2C9E, 0x37, 0xAFFC_9660) && Carries(0xAFFC_9660, 0x38, 0x651F_2550)
    ensures Carries(0x651F_2550, 0x39, 0x340B_C6D9)
  {
    EightCarries(0xFFFF_FFFF, 0x31, 0xFFFF_FFCE, 0x7C23_1048);
    EightCarries(0x7C23_1048, 0x32, 0x7C23_107A, 0xB0AC_BB32);
    EightCarries(0xB0AC_BB32, 0x33, 0xB0AC_BB01, 0x77B7_9C2D);
    EightCarries(0x77B7_9C2D, 0x34, 0x77B7_9C19, 0x641C_1F5C);
    EightCarries(0x641C_1F5C, 0x35, 0x641C_1F69, 0x340A_C5E3);
    EightCarries(0x340A_C5E3, 0x36, 0x340A_C5D5, 0xF68D_2C9E);
    EightCarries(0xF68D_2C9E, 0x37, 0xF68D_2CA9, 0xAFFC_9660);
    EightCarries(0xAFFC_9660, 0x38, 0xAFFC_9658, 0x651F_2550);
    EightCarries(0x651F_2550, 0x39, 0x651F_2569, 0x340B_C6D9);
  }

  /** The digits 1 to 9, in ASCII. */
  function OneToNine(): seq<bv8> {
    [0x31, 0x32, 0x33, 0x34, 0x35, 0x36, 0x37, 0x38, 0x39]
  }

  lemma CheckValue()
    ensures Crc32(OneToNine()) == 0xCBF4_3926
  {
    CheckSteps();
    FeedAll(OneToNine(), [0xFFFF_FFFF, 0x7C23_1048, 0xB0AC_BB32, 0x77B7_9C2D, 0x641C_1F5C, 0x340A_C5E3, 0xF68D_2C9E,
                           0xAFFC_9660, 0x651F_2550, 0x340B_C6D9]);
  }

  // ----- where the bytes of a header are -----

  /** The field is the four bytes from 16 on, least significant first; storing it changes no other byte. */
  lemma FieldBytes(h: seq<bv8>, v: bv32)
    requires |h| >= 24
    ensures forall i :: 0 <= i < |h| && !(16 <= i < 20) ==> WithCrc(h, v)[i] == h[i]
    ensures var r := WithCrc(h, v);
            && r[16] as bv32 == v & 0xFF && r[17] as bv32 == (v >> 8) & 0xFF
            && r[18] as bv32 == (v >> 16) & 0xFF && r[19] as bv32 == (v >> 24) & 0xFF
  {
    BytesOf(v);
  }

  /** The size that a header gives is in its bytes from 12 on, least significant first. */
  lemma SizeBytes(h: seq<bv8>)
    requires |h| >= 24
    ensures HeaderSize(h) == h[12] as int + 256 * h[13] as int + 65536 * h[14] as int + 16777216 * h[15] as int
  {
    WordOf(h[12..16], U32(h[12..16]));
  }

  lemma WordOf(b: seq<bv8>, v: bv32)
    requires |b| == 4 && v == U32(b)
    ensures v as int == b[0] as int + 256 * b[1] as int + 65536 * b[2] as int + 16777216 * b[3] as int
  {
    WordSum(b[0], b[1], b[2], b[3]);
  }

  lemma WordSum(b0: bv8, b1: bv8, b2: bv8, b3: bv8)
    ensures ((b0 as bv32) | (b1 as bv32 << 8) | (b2 as bv32 << 16) | (b3 as bv32 << 24)) as int
         == b0 as int + 256 * b1 as int + 65536 * b2 as int + 16777216 * b3 as int
  {}

  /** The covered bytes are those of the header with zeros from 16 to 20. */
  lemma CoveredBytes(h: seq<bv8>, size: nat)
    requires |h| >= 24 && 20 <= size <= |h|
    ensures CoveredCrc(h, size) == Crc32(h[..16] + [0, 0, 0, 0] + h[20..size])
  {
    assert U32Bytes(0) == [0, 0, 0, 0];
    assert WithCrc(h, 0)[..size] == h[..16] + [0, 0, 0, 0] + h[20..size];
  }
}
