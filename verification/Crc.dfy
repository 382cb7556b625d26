/**
 CRC-32 of EFI table headers (bootloader/gnu-efi/lib/crc.c; section 4.2 of the UEFI Specification).

 The reference, Crc32, is the bit-serial reflected CRC-32 of section 8 of RFC 1952.  Crc32Table shows
 that the source's 256-entry table holds eight bit steps of each index; Crc shows that the
 byte-at-a-time loop computes the reference and what the set/check protocol on headers guarantees.
 */
module Crc32Table {
  import opened ShiftRegister

  /** One step of the register: the bit shifted out decides whether the polynomial is added. */
  function BitStep(c: bv32): bv32 {
    if c & 1 == 1 then (c >> 1) ^ 0xEDB88320 else c >> 1
  }

  /** The word with only bit i set. */
  function Unit(i: nat): bv32 {
    match i
    case 0 => 0x1 case 1 => 0x2 case 2 => 0x4 case 3 => 0x8
    case 4 => 0x10 case 5 => 0x20 case 6 => 0x40 case 7 => 0x80
    case 8 => 0x100 case 9 => 0x200 case 10 => 0x400 case 11 => 0x800
    case 12 => 0x1000 case 13 => 0x2000 case 14 => 0x4000 case 15 => 0x8000
    case 16 => 0x10000 case 17 => 0x20000 case 18 => 0x40000 case 19 => 0x80000
    case 20 => 0x100000 case 21 => 0x200000 case 22 => 0x400000 case 23 => 0x800000
    case 24 => 0x1000000 case 25 => 0x2000000 case 26 => 0x4000000 case 27 => 0x8000000
    case 28 => 0x10000000 case 29 => 0x20000000 case 30 => 0x40000000 case 31 => 0x80000000
    case _ => 0
  }

  function Xor(a: bv32, b: bv32): bv32 {
    a ^ b
  }

  /** The CRC-32 register. */
  const CRC_REGISTER: Register<bv32> :=
    Register((a: bv32, b: bv32) => Xor(a, b), 0, (c: bv32) => BitStep(c), (i: nat) => Unit(i), (a: bv32) => a & 1 == 1)

  // ----- the register obeys the laws -----

  lemma StepLinearOddOdd(a: bv32, b: bv32)
    requires a & 1 == 1 && b & 1 == 1
    ensures BitStep(a ^ b) == BitStep(a) ^ BitStep(b)
  {}

  lemma ShiftXor(a: bv32, b: bv32)
    ensures (a ^ b) >> 1 == (a >> 1) ^ (b >> 1)
  {}

  lemma EvenXor(a: bv32, b: bv32)
    requires a & 1 == 0
    ensures (a ^ b) & 1 == b & 1
  {}

  lemma StepLinearEven(a: bv32, b: bv32)
    requires a & 1 == 0
    ensures BitStep(a ^ b) == BitStep(a) ^ BitStep(b)
  {
    ShiftXor(a, b);
    EvenXor(a, b);
    XorAssociative(a >> 1, b >> 1, 0xEDB88320);
  }

  lemma LowBit(a: bv32)
    ensures a & 1 == 0 || a & 1 == 1
  {}

  lemma StepLinear(a: bv32, b: bv32)
    ensures BitStep(Xor(a, b)) == Xor(BitStep(a), BitStep(b))
  {
    LowBit(a);
    LowBit(b);
    if a & 1 == 0 {
      StepLinearEven(a, b);
    } else if b & 1 == 0 {
      assert a ^ b == b ^ a;
      StepLinearEven(b, a);
    } else {
      StepLinearOddOdd(a, b);
    }
  }

  /** The step loses nothing: the polynomial's top bit is set and a shifted word's is clear. */
  lemma StepInjective(a: bv32, b: bv32)
    requires BitStep(a) == BitStep(b)
    ensures a == b
  {}

  lemma LowXor(a: bv32, b: bv32)
    ensures ((a ^ b) & 1 == 1) == ((a & 1 == 1) != (b & 1 == 1))
  {}

  lemma XorCancel(a: bv32, b: bv32, x: bv32)
    requires a ^ x == b ^ x
    ensures a == b
  {
    assert (a ^ x) ^ x == a && (b ^ x) ^ x == b;
  }

  lemma UnitShifts(i: nat)
    requires i < 31
    ensures BitStep(Unit(i + 1)) == Unit(i)
  {
    if i < 16 {
      match i
      case 0 => case 1 => case 2 => case 3 => case 4 => case 5 => case 6 => case 7 =>
      case 8 => case 9 => case 10 => case 11 => case 12 => case 13 => case 14 => case 15 =>
    } else {
      match i
      case 16 => case 17 => case 18 => case 19 => case 20 => case 21 => case 22 => case 23 =>
      case 24 => case 25 => case 26 => case 27 => case 28 => case 29 => case 30 =>
    }
  }

  lemma UnitLow(i: nat)
    requires i < 32
    ensures (Unit(i) & 1 == 1) == (i == 0)
  {
    if i < 16 {
      match i
      case 0 => case 1 => case 2 => case 3 => case 4 => case 5 => case 6 => case 7 =>
      case 8 => case 9 => case 10 => case 11 => case 12 => case 13 => case 14 => case 15 =>
    } else {
      match i
      case 16 => case 17 => case 18 => case 19 => case 20 => case 21 => case 22 => case 23 =>
      case 24 => case 25 => case 26 => case 27 => case 28 => case 29 => case 30 => case 31 =>
    }
  }

  lemma StepLinearLaw()
    ensures forall a, b :: CRC_REGISTER.LinearAt(a, b)
  {
    forall a, b ensures CRC_REGISTER.LinearAt(a, b) {
      StepLinearAt(a, b);
    }
  }

  lemma StepLinearAt(a: bv32, b: bv32)
    ensures CRC_REGISTER.LinearAt(a, b)
  {
    StepLinear(a, b);
  }

  lemma ZeroLaw(a: bv32)
    ensures Xor(a, 0) == a && Xor(0, a) == a
  {}

  lemma GroupLaw()
    ensures CRC_REGISTER.Group()
  {
    AssociativeLaw();
    forall a ensures CRC_REGISTER.IdentityAt(a) {
      ZeroLaw(a);
    }
  }

  lemma AssociativeLaw()
    ensures forall a, b, c :: CRC_REGISTER.AssociativeAt(a, b, c)
  {
    forall a, b, c ensures CRC_REGISTER.AssociativeAt(a, b, c) {
      XorAssociative(a, b, c);
    }
  }

  lemma XorAssociative(a: bv32, b: bv32, c: bv32)
    ensures Xor(Xor(a, b), c) == Xor(a, Xor(b, c))
  {}

  lemma InjectiveLaw()
    ensures CRC_REGISTER.Injective()
  {
    forall a, b | BitStep(a) == BitStep(b) ensures a == b {
      StepInjective(a, b);
    }
    forall a, b, x | Xor(a, x) == Xor(b, x) ensures a == b {
      XorCancel(a, b, x);
    }
  }

  lemma ShiftLaw()
    ensures forall i: nat :: i + 1 < WIDTH ==> CRC_REGISTER.ShiftAt(i)
  {
    forall i: nat | i + 1 < WIDTH ensures CRC_REGISTER.ShiftAt(i) {
      UnitShifts(i);
    }
  }

  lemma UnitLaw()
    ensures forall i: nat :: i < WIDTH ==> CRC_REGISTER.UnitAt(i)
  {
    forall i: nat | i < WIDTH ensures CRC_REGISTER.UnitAt(i) {
      UnitLow(i);
    }
  }

  lemma LowLaw()
    ensures forall a, b :: CRC_REGISTER.LowAt(a, b)
  {
    forall a, b ensures CRC_REGISTER.LowAt(a, b) {
      LowXor(a, b);
    }
  }

  /** The CRC-32 step is linear over xor and injective, and moves each single bit one place down. */
  lemma RegisterLaws()
    ensures CRC_REGISTER.Laws()
  {
    StepLinearLaw();
    GroupLaw();
    InjectiveLaw();
    ShiftLaw();
    UnitLaw();
    LowLaw();
  }

  // ----- the table -----

  function EightSteps(c: bv32): bv32 {
    BitStep(BitStep(BitStep(BitStep(BitStep(BitStep(BitStep(BitStep(c))))))))
  }

  // The source's 256 entries, sixteen to a row: entry 16 * h + l is entry l of row h.

  function Row0(l: bv4): bv32 {
    match l
    case 0 => 0x00000000 case 1 => 0x77073096 case 2 => 0xEE0E612C case 3 => 0x990951BA
    case 4 => 0x076DC419 case 5 => 0x706AF48F case 6 => 0xE963A535 case 7 => 0x9E6495A3
    case 8 => 0x0EDB8832 case 9 => 0x79DCB8A4 case 10 => 0xE0D5E91E case 11 => 0x97D2D988
    case 12 => 0x09B64C2B case 13 => 0x7EB17CBD case 14 => 0xE7B82D07 case 15 => 0x90BF1D91
  }

  function Row1(l: bv4): bv32 {
    match l
    case 0 => 0x1DB71064 case 1 => 0x6AB020F2 case 2 => 0xF3B97148 case 3 => 0x84BE41DE
    case 4 => 0x1ADAD47D case 5 => 0x6DDDE4EB case 6 => 0xF4D4B551 case 7 => 0x83D385C7
    case 8 => 0x136C9856 case 9 => 0x646BA8C0 case 10 => 0xFD62F97A case 11 => 0x8A65C9EC
    case 12 => 0x14015C4F case 13 => 0x63066CD9 case 14 => 0xFA0F3D63 case 15 => 0x8D080DF5
  }

  function Row2(l: bv4): bv32 {
    match l
    case 0 => 0x3B6E20C8 case 1 => 0x4C69105E case 2 => 0xD56041E4 case 3 => 0xA2677172
    case 4 => 0x3C03E4D1 case 5 => 0x4B04D447 case 6 => 0xD20D85FD case 7 => 0xA50AB56B
    case 8 => 0x35B5A8FA case 9 => 0x42B2986C case 10 => 0xDBBBC9D6 case 11 => 0xACBCF940
    case 12 => 0x32D86CE3 case 13 => 0x45DF5C75 case 14 => 0xDCD60DCF case 15 => 0xABD13D59
  }

  function Row3(l: bv4): bv32 {
    match l
    case 0 => 0x26D930AC case 1 => 0x51DE003A case 2 => 0xC8D75180 case 3 => 0xBFD06116
    case 4 => 0x21B4F4B5 case 5 => 0x56B3C423 case 6 => 0xCFBA9599 case 7 => 0xB8BDA50F
    case 8 => 0x2802B89E case 9 => 0x5F058808 case 10 => 0xC60CD9B2 case 11 => 0xB10BE924
    case 12 => 0x2F6F7C87 case 13 => 0x58684C11 case 14 => 0xC1611DAB case 15 => 0xB6662D3D
  }

  function Row4(l: bv4): bv32 {
    match l
    case 0 => 0x76DC4190 case 1 => 0x01DB7106 case 2 => 0x98D220BC case 3 => 0xEFD5102A
    case 4 => 0x71B18589 case 5 => 0x06B6B51F case 6 => 0x9FBFE4A5 case 7 => 0xE8B8D433
    case 8 => 0x7807C9A2 case 9 => 0x0F00F934 case 10 => 0x9609A88E case 11 => 0xE10E9818
    case 12 => 0x7F6A0DBB case 13 => 0x086D3D2D case 14 => 0x91646C97 case 15 => 0xE6635C01
  }

  function Row5(l: bv4): bv32 {
    match l
    case 0 => 0x6B6B51F4 case 1 => 0x1C6C6162 case 2 => 0x856530D8 case 3 => 0xF262004E
    case 4 => 0x6C0695ED case 5 => 0x1B01A57B case 6 => 0x8208F4C1 case 7 => 0xF50FC457
    case 8 => 0x65B0D9C6 case 9 => 0x12B7E950 case 10 => 0x8BBEB8EA case 11 => 0xFCB9887C
    case 12 => 0x62DD1DDF case 13 => 0x15DA2D49 case 14 => 0x8CD37CF3 case 15 => 0xFBD44C65
  }

  function Row6(l: bv4): bv32 {
    match l
    case 0 => 0x4DB26158 case 1 => 0x3AB551CE case 2 => 0xA3BC0074 case 3 => 0xD4BB30E2
    case 4 => 0x4ADFA541 case 5 => 0x3DD895D7 case 6 => 0xA4D1C46D case 7 => 0xD3D6F4FB
    case 8 => 0x4369E96A case 9 => 0x346ED9FC case 10 => 0xAD678846 case 11 => 0xDA60B8D0
    case 12 => 0x44042D73 case 13 => 0x33031DE5 case 14 => 0xAA0A4C5F case 15 => 0xDD0D7CC9
  }

  function Row7(l: bv4): bv32 {
    match l
    case 0 => 0x5005713C case 1 => 0x270241AA case 2 => 0xBE0B1010 case 3 => 0xC90C2086
    case 4 => 0x5768B525 case 5 => 0x206F85B3 case 6 => 0xB966D409 case 7 => 0xCE61E49F
    case 8 => 0x5EDEF90E case 9 => 0x29D9C998 case 10 => 0xB0D09822 case 11 => 0xC7D7A8B4
    case 12 => 0x59B33D17 case 13 => 0x2EB40D81 case 14 => 0xB7BD5C3B case 15 => 0xC0BA6CAD
  }

  function Row8(l: bv4): bv32 {
    match l
    case 0 => 0xEDB88320 case 1 => 0x9ABFB3B6 case 2 => 0x03B6E20C case 3 => 0x74B1D29A
    case 4 => 0xEAD54739 case 5 => 0x9DD277AF case 6 => 0x04DB2615 case 7 => 0x73DC1683
    case 8 => 0xE3630B12 case 9 => 0x94643B84 case 10 => 0x0D6D6A3E case 11 => 0x7A6A5AA8
    case 12 => 0xE40ECF0B case 13 => 0x9309FF9D case 14 => 0x0A00AE27 case 15 => 0x7D079EB1
  }

  function Row9(l: bv4): bv32 {
    match l
    case 0 => 0xF00F9344 case 1 => 0x8708A3D2 case 2 => 0x1E01F268 case 3 => 0x6906C2FE
    case 4 => 0xF762575D case 5 => 0x806567CB case 6 => 0x196C3671 case 7 => 0x6E6B06E7
    case 8 => 0xFED41B76 case 9 => 0x89D32BE0 case 10 => 0x10DA7A5A case 11 => 0x67DD4ACC
    case 12 => 0xF9B9DF6F case 13 => 0x8EBEEFF9 case 14 => 0x17B7BE43 case 15 => 0x60B08ED5
  }

  function RowA(l: bv4): bv32 {
    match l
    case 0 => 0xD6D6A3E8 case 1 => 0xA1D1937E case 2 => 0x38D8C2C4 case 3 => 0x4FDFF252
    case 4 => 0xD1BB67F1 case 5 => 0xA6BC5767 case 6 => 0x3FB506DD case 7 => 0x48B2364B
    case 8 => 0xD80D2BDA case 9 => 0xAF0A1B4C case 10 => 0x36034AF6 case 11 => 0x41047A60
    case 12 => 0xDF60EFC3 case 13 => 0xA867DF55 case 14 => 0x316E8EEF case 15 => 0x4669BE79
  }

  function RowB(l: bv4): bv32 {
    match l
    case 0 => 0xCB61B38C case 1 => 0xBC66831A case 2 => 0x256FD2A0 case 3 => 0x5268E236
    case 4 => 0xCC0C7795 case 5 => 0xBB0B4703 case 6 => 0x220216B9 case 7 => 0x5505262F
    case 8 => 0xC5BA3BBE case 9 => 0xB2BD0B28 case 10 => 0x2BB45A92 case 11 => 0x5CB36A04
    case 12 => 0xC2D7FFA7 case 13 => 0xB5D0CF31 case 14 => 0x2CD99E8B case 15 => 0x5BDEAE1D
  }

  function RowC(l: bv4): bv32 {
    match l
    case 0 => 0x9B64C2B0 case 1 => 0xEC63F226 case 2 => 0x756AA39C case 3 => 0x026D930A
    case 4 => 0x9C0906A9 case 5 => 0xEB0E363F case 6 => 0x72076785 case 7 => 0x05005713
    case 8 => 0x95BF4A82 case 9 => 0xE2B87A14 case 10 => 0x7BB12BAE case 11 => 0x0CB61B38
    case 12 => 0x92D28E9B case 13 => 0xE5D5BE0D case 14 => 0x7CDCEFB7 case 15 => 0x0BDBDF21
  }

  function RowD(l: bv4): bv32 {
    match l
    case 0 => 0x86D3D2D4 case 1 => 0xF1D4E242 case 2 => 0x68DDB3F8 case 3 => 0x1FDA836E
    case 4 => 0x81BE16CD case 5 => 0xF6B9265B case 6 => 0x6FB077E1 case 7 => 0x18B74777
    case 8 => 0x88085AE6 case 9 => 0xFF0F6A70 case 10 => 0x66063BCA case 11 => 0x11010B5C
    case 12 => 0x8F659EFF case 13 => 0xF862AE69 case 14 => 0x616BFFD3 case 15 => 0x166CCF45
  }

  function RowE(l: bv4): bv32 {
    match l
    case 0 => 0xA00AE278 case 1 => 0xD70DD2EE case 2 => 0x4E048354 case 3 => 0x3903B3C2
    case 4 => 0xA7672661 case 5 => 0xD06016F7 case 6 => 0x4969474D case 7 => 0x3E6E77DB
    case 8 => 0xAED16A4A case 9 => 0xD9D65ADC case 10 => 0x40DF0B66 case 11 => 0x37D83BF0
    case 12 => 0xA9BCAE53 case 13 => 0xDEBB9EC5 case 14 => 0x47B2CF7F case 15 => 0x30B5FFE9
  }

  function RowF(l: bv4): bv32 {
    match l
    case 0 => 0xBDBDF21C case 1 => 0xCABAC28A case 2 => 0x53B39330 case 3 => 0x24B4A3A6
    case 4 => 0xBAD03605 case 5 => 0xCDD70693 case 6 => 0x54DE5729 case 7 => 0x23D967BF
    case 8 => 0xB3667A2E case 9 => 0xC4614AB8 case 10 => 0x5D681B02 case 11 => 0x2A6F2B94
    case 12 => 0xB40BBE37 case 13 => 0xC30C8EA1 case 14 => 0x5A05DF1B case 15 => 0x2D02EF8D
  }

  /** Entry i of the source's table. */
  function Entry(i: bv8): bv32 {
    var l := (i & 0xF) as bv4;
    match (i >> 4) as bv4
    case 0 => Row0(l) case 1 => Row1(l) case 2 => Row2(l) case 3 => Row3(l)
    case 4 => Row4(l) case 5 => Row5(l) case 6 => Row6(l) case 7 => Row7(l)
    case 8 => Row8(l) case 9 => Row9(l) case 10 => RowA(l) case 11 => RowB(l)
    case 12 => RowC(l) case 13 => RowD(l) case 14 => RowE(l) case 15 => RowF(l)
  }

  /** Every table entry is eight bit steps of its index. */
  lemma EntryIsEightSteps(i: bv8)
    ensures Entry(i) == EightSteps(i as bv32)
  {}
}

module Crc {
  import opened ShiftRegister
  import opened Crc32Table

  // ----- the reference -----

  /** Feeds message bits to the register, first bit first. */
  function FeedBits(c: bv32, bits: seq<bool>): bv32
    decreases |bits|
  {
    if |bits| == 0 then c else FeedBits(BitStep(if bits[0] then c ^ 1 else c), bits[1..])
  }

  /** The bits of a byte, least significant first. */
  function ByteBits(b: bv8): (bits: seq<bool>)
    ensures |bits| == 8
  {
    [b & 1 == 1, (b >> 1) & 1 == 1, (b >> 2) & 1 == 1, (b >> 3) & 1 == 1,
     (b >> 4) & 1 == 1, (b >> 5) & 1 == 1, (b >> 6) & 1 == 1, (b >> 7) & 1 == 1]
  }

  function MessageBits(data: seq<bv8>): (bits: seq<bool>)
    ensures |bits| == 8 * |data|
  {
    if |data| == 0 then [] else ByteBits(data[0]) + MessageBits(data[1..])
  }

  /** The CRC-32 of a message, one bit at a time. */
  function Crc32(data: seq<bv8>): bv32 {
    FeedBits(0xFFFF_FFFF, MessageBits(data)) ^ 0xFFFF_FFFF
  }

  lemma {:induction false} FeedIsRegister(c: bv32, bits: seq<bool>)
    ensures FeedBits(c, bits) == CRC_REGISTER.Feed(c, bits)
    decreases |bits|
  {
    if |bits| != 0 {
      var d := if bits[0] then c ^ 1 else c;
      assert d == CRC_REGISTER.xor(c, CRC_REGISTER.Scaled(bits[0], 0));
      assert CRC_REGISTER.step(d) == BitStep(d);
      FeedIsRegister(BitStep(d), bits[1..]);
    }
  }

  // ----- the table form -----

  lemma EightStepsXor(a: bv32, b: bv32)
    ensures EightSteps(Xor(a, b)) == Xor(EightSteps(a), EightSteps(b))
  {
    RegisterLaws();
    CRC_REGISTER.StepsLinear(8, a, b);
    EightIsSteps(a);
    EightIsSteps(b);
    EightIsSteps(Xor(a, b));
  }

  lemma EightIsSteps(c: bv32)
    ensures EightSteps(c) == CRC_REGISTER.Steps(8, c)
  {
    CRC_REGISTER.EightSteps(c);
  }

  // ----- one byte through the table -----

  lemma LowNibble(x0: bool, x1: bool, x2: bool, x3: bool)
    ensures CRC_REGISTER.XorTwo(CRC_REGISTER.XorTwo(0, x0, x1, 0), x2, x3, 2)
         == (if x0 then 0x1 else 0) | (if x1 then 0x2 else 0) | (if x2 then 0x4 else 0) | (if x3 then 0x8 else 0)
  {}

  lemma HighNibble(lower: bv32, x4: bool, x5: bool, x6: bool, x7: bool)
    requires lower & 0xFFFF_FFF0 == 0
    ensures CRC_REGISTER.XorTwo(CRC_REGISTER.XorTwo(lower, x4, x5, 4), x6, x7, 6)
         == lower | (if x4 then 0x10 else 0) | (if x5 then 0x20 else 0) | (if x6 then 0x40 else 0)
            | (if x7 then 0x80 else 0)
  {}

  lemma ByteIsItsBits(b: bv8)
    ensures CRC_REGISTER.Mix(0, ByteBits(b), 0) == b as bv32
  {
    var bits := ByteBits(b);
    var lower := (b & 0xF) as bv32;
    LowNibble(bits[0], bits[1], bits[2], bits[3]);
    HighNibble(lower, bits[4], bits[5], bits[6], bits[7]);
    NibblesOfByte(b);
    CRC_REGISTER.MixEight(bits, lower, b as bv32);
  }

  lemma NibblesOfByte(b: bv8)
    ensures var bits := ByteBits(b);
            var lower := (b & 0xF) as bv32;
            && lower == (if bits[0] then 0x1 else 0) | (if bits[1] then 0x2 else 0)
                        | (if bits[2] then 0x4 else 0) | (if bits[3] then 0x8 else 0)
            && b as bv32 == lower | (if bits[4] then 0x10 else 0) | (if bits[5] then 0x20 else 0)
                            | (if bits[6] then 0x40 else 0) | (if bits[7] then 0x80 else 0)
  {}

  lemma FeedByte(c: bv32, b: bv8)
    ensures CRC_REGISTER.Feed(c, ByteBits(b)) == CRC_REGISTER.Steps(8, Xor(c, b as bv32))
  {
    RegisterLaws();
    CRC_REGISTER.FeedIsMix(c, ByteBits(b));
    ByteIsItsBits(b);
    CRC_REGISTER.MixFromZero(c, ByteBits(b), 0);
  }

  /** A map that is linear and shifts words with a clear low byte is known from its values on bytes. */
  lemma SplitLinear(f: bv32 -> bv32, x: bv32, lo: bv32, e: bv32)
    requires lo == x & 0xFF && e == x & 0xFFFF_FF00
    requires f(Xor(lo, e)) == Xor(f(lo), f(e)) && f(e) == e >> 8
    ensures f(x) == Xor(f(lo), x >> 8)
  {
    SplitWord(x);
  }

  lemma SplitWord(x: bv32)
    ensures Xor(x & 0xFF, x & 0xFFFF_FF00) == x && (x & 0xFFFF_FF00) >> 8 == x >> 8
    ensures (x & 0xFFFF_FF00) & 0xFF == 0
  {}

  lemma RegisterSplit(x: bv32)
    ensures EightSteps(x) == Xor(EightSteps(x & 0xFF), x >> 8)
  {
    var lo, e := x & 0xFF, x & 0xFFFF_FF00;
    SplitWord(x);
    EightStepsXor(lo, e);
    EightShifts(e);
    SplitLinear(c => EightSteps(c), x, lo, e);
  }

  lemma StepShifts(e: bv32)
    requires e & 1 == 0
    ensures BitStep(e) == e >> 1
  {}

  /** A word with its low byte clear is only shifted by eight steps. */
  lemma EightShifts(e: bv32)
    requires e & 0xFF == 0
    ensures EightSteps(e) == e >> 8
  {
    ShiftsCompose(e);
    StepShifts(e);
    StepShifts(e >> 1);
    StepShifts(e >> 2);
    StepShifts(e >> 3);
    StepShifts(e >> 4);
    StepShifts(e >> 5);
    StepShifts(e >> 6);
    StepShifts(e >> 7);
  }

  lemma ShiftsCompose(e: bv32)
    requires e & 0xFF == 0
    ensures e & 1 == 0 && (e >> 1) & 1 == 0 && (e >> 2) & 1 == 0 && (e >> 3) & 1 == 0
    ensures (e >> 4) & 1 == 0 && (e >> 5) & 1 == 0 && (e >> 6) & 1 == 0 && (e >> 7) & 1 == 0
    ensures (e >> 1) >> 1 == e >> 2 && (e >> 2) >> 1 == e >> 3 && (e >> 3) >> 1 == e >> 4
    ensures (e >> 4) >> 1 == e >> 5 && (e >> 5) >> 1 == e >> 6 && (e >> 6) >> 1 == e >> 7
    ensures (e >> 7) >> 1 == e >> 8
  {}

  lemma EntryIsSteps(i: bv8)
    ensures Entry(i) == CRC_REGISTER.Steps(8, i as bv32)
  {
    EntryIsEightSteps(i);
    EightIsSteps(i as bv32);
  }

  lemma StepsSplit(x: bv32)
    ensures CRC_REGISTER.Steps(8, x) == Xor(CRC_REGISTER.Steps(8, x & 0xFF), x >> 8)
  {
    RegisterSplit(x);
    EightIsSteps(x);
    EightIsSteps(x & 0xFF);
  }

  lemma LookUp(c: bv32, b: bv8, i: bv8, entry: bv32)
    requires i == (c & 0xFF) as bv8 ^ b && entry == CRC_REGISTER.Steps(8, i as bv32)
    ensures Xor(c >> 8, entry) == CRC_REGISTER.Steps(8, Xor(c, b as bv32))
  {
    StepsSplit(Xor(c, b as bv32));
    IndexIsLowByte(c, b);
    XorCommutes(c >> 8, entry);
  }

  lemma XorCommutes(a: bv32, b: bv32)
    ensures Xor(a, b) == Xor(b, a)
  {}

  lemma IndexIsLowByte(c: bv32, b: bv8)
    ensures ((c & 0xFF) as bv8 ^ b) as bv32 == Xor(c, b as bv32) & 0xFF
    ensures Xor(c, b as bv32) >> 8 == c >> 8
  {}

  lemma WideFinish(wide: bv64, c: bv32)
    requires wide == c as bv64
    ensures ((wide ^ 0xFFFF_FFFF) & 0xFFFF_FFFF) as bv32 == c ^ 0xFFFF_FFFF
  {}

  lemma FeedNextByte(c: bv32, b: bv8, rest: seq<bool>)
    ensures FeedBits(c, ByteBits(b) + rest) == FeedBits(CRC_REGISTER.Steps(8, Xor(c, b as bv32)), rest)
  {
    FeedIsRegister(c, ByteBits(b) + rest);
    CRC_REGISTER.FeedConcat(c, ByteBits(b), rest);
    FeedByte(c, b);
    FeedIsRegister(CRC_REGISTER.Steps(8, Xor(c, b as bv32)), rest);
  }

  lemma FeedAfterByte(c: bv32, b: bv8) returns (d: bv32)
    ensures d == CRC_REGISTER.Steps(8, Xor(c, b as bv32))
    ensures forall rest :: FeedBits(c, ByteBits(b) + rest) == FeedBits(d, rest)
  {
    d := CRC_REGISTER.Steps(8, Xor(c, b as bv32));
    forall rest ensures FeedBits(c, ByteBits(b) + rest) == FeedBits(d, rest) {
      FeedNextByte(c, b, rest);
    }
  }

  method ReadTable(i: bv8) returns (entry: bv32)
    ensures entry == CRC_REGISTER.Steps(8, i as bv32)
  {
    EntryIsSteps(i);
    entry := Entry(i);
  }

  method TableIndex(wide: bv64, b: bv8, ghost c: bv32) returns (i: bv8)
    requires wide == c as bv64
    ensures i == (c & 0xFF) as bv8 ^ b
  {
    i := (wide & 0xFF) as bv8 ^ b;
  }

  method ShiftAndAdd(wide: bv64, entry: bv32, ghost c: bv32, ghost d: bv32) returns (next: bv64)
    requires wide == c as bv64 && Xor(c >> 8, entry) == d
    ensures next == d as bv64
  {
    next := (wide >> 8) ^ (entry as bv64);
  }

  /** One table look-up is eight bit steps with the byte added. */
  method TableStep(wide: bv64, b: bv8, ghost c: bv32, ghost d: bv32) returns (next: bv64)
    requires wide == c as bv64 && d == CRC_REGISTER.Steps(8, Xor(c, b as bv32))
    ensures next == d as bv64
  {
    var i := TableIndex(wide, b, c);
    var entry := ReadTable(i);
    LookUp(c, b, i, entry);
    next := ShiftAndAdd(wide, entry, c, d);
  }

  /** The loop body takes the register from c to d across the eight bits of b. */
  method NextCrc(wide: bv64, b: bv8, ghost c: bv32) returns (next: bv64, ghost d: bv32)
    requires wide == c as bv64
    ensures next == d as bv64
    ensures forall rest :: FeedBits(c, ByteBits(b) + rest) == FeedBits(d, rest)
  {
    d := FeedAfterByte(c, b);
    next := TableStep(wide, b, c, d);
  }

  /** The table-driven loop.  The running value is a 64-bit word that stays below 2^32. */
  method CalculateCrc(pt: array<bv8>, size: nat) returns (crc: bv32)
    requires size <= pt.Length
    ensures crc == Crc32(pt[..size])
  {
    var wide: bv64 := 0xFFFF_FFFF;
    ghost var c: bv32 := 0xFFFF_FFFF;
    var i := 0;
    while i < size
      invariant i <= size && wide == c as bv64
      invariant FeedBits(c, MessageBits(pt[i..size])) == FeedBits(0xFFFF_FFFF, MessageBits(pt[..size]))
    {
      assert pt[i..size][1..] == pt[i + 1..size];
      wide, c := NextCrc(wide, pt[i], c);
      i := i + 1;
    }
    assert pt[size..size] == [];
    WideFinish(wide, c);
    crc := ((wide ^ 0xFFFF_FFFF) & 0xFFFF_FFFF) as bv32;
  }

  // ----- changes that cannot go unnoticed -----

  lemma {:induction false} MessageBitsConcat(a: seq<bv8>, b: seq<bv8>)
    ensures MessageBits(a + b) == MessageBits(a) + MessageBits(b)
  {
    if |a| == 0 {
      assert a + b == b;
    } else {
      assert (a + b)[1..] == a[1..] + b;
      MessageBitsConcat(a[1..], b);
    }
  }

  lemma ByteBitsInjective(a: bv8, b: bv8)
    requires ByteBits(a) == ByteBits(b)
    ensures a == b
  {
    ByteIsItsBits(a);
    ByteIsItsBits(b);
    Narrow(a, b);
  }

  lemma Narrow(a: bv8, b: bv8)
    requires a as bv32 == b as bv32
    ensures a == b
  {}

  lemma {:induction false} MessageBitsInjective(a: seq<bv8>, b: seq<bv8>)
    requires |a| == |b| && MessageBits(a) == MessageBits(b)
    ensures a == b
  {
    if |a| != 0 {
      assert MessageBits(a)[..8] == ByteBits(a[0]) && MessageBits(a)[8..] == MessageBits(a[1..]);
      assert MessageBits(b)[..8] == ByteBits(b[0]) && MessageBits(b)[8..] == MessageBits(b[1..]);
      ByteBitsInjective(a[0], b[0]);
      MessageBitsInjective(a[1..], b[1..]);
      assert a == [a[0]] + a[1..] && b == [b[0]] + b[1..];
    }
  }

  /** Equally long messages that agree outside the bytes lo, lo + 1, ..., hi - 1. */
  ghost predicate AgreeOutside(a: seq<bv8>, b: seq<bv8>, lo: nat, hi: nat) {
    && |a| == |b|
    && forall k :: 0 <= k < |a| && !(lo <= k < hi) ==> a[k] == b[k]
  }

  lemma ConcatThree(x: seq<bv8>, y: seq<bv8>, z: seq<bv8>)
    ensures MessageBits(x + y + z) == MessageBits(x) + MessageBits(y) + MessageBits(z)
  {
    MessageBitsConcat(x + y, z);
    MessageBitsConcat(x, y);
  }

  lemma SplitBits(a: seq<bv8>, lo: nat, hi: nat)
    requires lo <= hi <= |a|
    ensures MessageBits(a) == MessageBits(a[..lo]) + MessageBits(a[lo..hi]) + MessageBits(a[hi..])
  {
    Slices(a, lo, hi);
    ConcatThree(a[..lo], a[lo..hi], a[hi..]);
  }

  lemma Slices<T>(a: seq<T>, lo: nat, hi: nat)
    requires lo <= hi <= |a|
    ensures a[..lo] + a[lo..hi] + a[hi..] == a
  {}

  lemma EqualWindows(a: seq<bv8>, b: seq<bv8>, lo: nat, hi: nat)
    requires lo <= hi <= |a| && AgreeOutside(a, b, lo, hi)
    requires MessageBits(a[lo..hi]) == MessageBits(b[lo..hi])
    ensures a == b
  {
    MessageBitsInjective(a[lo..hi], b[lo..hi]);
    forall k | 0 <= k < |a| ensures a[k] == b[k] {
      if lo <= k < hi {
        assert a[k] == a[lo..hi][k - lo] && b[k] == b[lo..hi][k - lo];
      }
    }
  }

  /** A change confined to four consecutive bytes always changes the CRC. */
  lemma BurstChangesCrc(a: seq<bv8>, b: seq<bv8>, lo: nat, hi: nat)
    requires lo <= hi <= |a| && hi - lo <= 4
    requires AgreeOutside(a, b, lo, hi) && a != b
    ensures Crc32(a) != Crc32(b)
  {
    assert a[..lo] == b[..lo] && a[hi..] == b[hi..];
    if MessageBits(a[lo..hi]) == MessageBits(b[lo..hi]) {
      EqualWindows(a, b, lo, hi);
    }
    SplitBits(a, lo, hi);
    SplitBits(b, lo, hi);
    BurstOfBits(MessageBits(a[..lo]), MessageBits(a[lo..hi]), MessageBits(b[lo..hi]), MessageBits(a[hi..]));
    XorDiffers(FeedBits(0xFFFF_FFFF, MessageBits(a)), FeedBits(0xFFFF_FFFF, MessageBits(b)));
  }

  lemma XorDiffers(x: bv32, y: bv32)
    requires x != y
    ensures x ^ 0xFFFF_FFFF != y ^ 0xFFFF_FFFF
  {}

  /** The same for 32 consecutive message bits, wherever they start. */
  lemma BurstOfBits(head: seq<bool>, v: seq<bool>, w: seq<bool>, tail: seq<bool>)
    requires |v| == |w| <= 32 && v != w
    ensures FeedBits(0xFFFF_FFFF, head + v + tail) != FeedBits(0xFFFF_FFFF, head + w + tail)
  {
    RegisterLaws();
    FeedIsRegister(0xFFFF_FFFF, head + v + tail);
    FeedIsRegister(0xFFFF_FFFF, head + w + tail);
    CRC_REGISTER.BurstDetected(0xFFFF_FFFF, head, v, w, tail);
  }

  // ----- the header protocol -----

  // Layout of EFI_TABLE_HEADER: Signature at 0, Revision at 8, HeaderSize at 12, CRC32 at 16, Reserved at 20.
  const HEADER_SIZE_FIELD := 12
  const CRC_FIELD := 16
  const HEADER_BYTES := 24

  function U32Bytes(v: bv32): (b: seq<bv8>)
    ensures |b| == 4
  {
    [(v & 0xFF) as bv8, ((v >> 8) & 0xFF) as bv8, ((v >> 16) & 0xFF) as bv8, ((v >> 24) & 0xFF) as bv8]
  }

  function U32(b: seq<bv8>): bv32
    requires |b| == 4
  {
    (b[0] as bv32) | (b[1] as bv32 << 8) | (b[2] as bv32 << 16) | (b[3] as bv32 << 24)
  }

  lemma U32RoundTrip(v: bv32)
    ensures U32(U32Bytes(v)) == v
  {}

  lemma U32BytesRoundTrip(b: seq<bv8>)
    requires |b| == 4
    ensures U32Bytes(U32(b)) == b
  {
    BytesOfWord(b[0], b[1], b[2], b[3]);
  }

  lemma BytesOfWord(b0: bv8, b1: bv8, b2: bv8, b3: bv8)
    ensures var v := (b0 as bv32) | (b1 as bv32 << 8) | (b2 as bv32 << 16) | (b3 as bv32 << 24);
            && (v & 0xFF) as bv8 == b0 && ((v >> 8) & 0xFF) as bv8 == b1
            && ((v >> 16) & 0xFF) as bv8 == b2 && ((v >> 24) & 0xFF) as bv8 == b3
  {}

  function CrcField(h: seq<bv8>): bv32
    requires |h| >= HEADER_BYTES
  {
    U32(h[CRC_FIELD..CRC_FIELD + 4])
  }

  function HeaderSize(h: seq<bv8>): (size: nat)
    requires |h| >= HEADER_BYTES
  {
    U32(h[HEADER_SIZE_FIELD..HEADER_SIZE_FIELD + 4]) as int
  }

  /** The header with its CRC32 field replaced. */
  function WithCrc(h: seq<bv8>, v: bv32): (r: seq<bv8>)
    requires |h| >= HEADER_BYTES
    ensures |r| == |h|
  {
    h[..CRC_FIELD] + U32Bytes(v) + h[CRC_FIELD + 4..]
  }

  /** The CRC of the first size bytes, taken with the CRC32 field cleared. */
  function CoveredCrc(h: seq<bv8>, size: nat): bv32
    requires HEADER_BYTES <= |h| && size <= |h|
  {
    Crc32(WithCrc(h, 0)[..size])
  }

  /** What CheckCrcAltSize decides. */
  predicate Passes(h: seq<bv8>, maxSize: nat, size: nat)
    requires HEADER_BYTES <= |h|
    requires size == 0 || 0 < maxSize < size || size <= |h|
  {
    && size != 0
    && !(maxSize != 0 && size > maxSize)
    && CrcField(h) == CoveredCrc(h, size)
  }

  method StoreCrc(hdr: array<bv8>, v: bv32)
    requires hdr.Length >= HEADER_BYTES
    modifies hdr
    ensures hdr[..] == WithCrc(old(hdr[..]), v)
  {
    var b := U32Bytes(v);
    hdr[CRC_FIELD], hdr[CRC_FIELD + 1], hdr[CRC_FIELD + 2], hdr[CRC_FIELD + 3] := b[0], b[1], b[2], b[3];
  }

  lemma OverwriteCrc(h: seq<bv8>, v: bv32, w: bv32)
    requires |h| >= HEADER_BYTES
    ensures WithCrc(WithCrc(h, v), w) == WithCrc(h, w)
    ensures CrcField(WithCrc(h, v)) == v
    ensures WithCrc(h, CrcField(h)) == h
  {
    assert WithCrc(h, v)[CRC_FIELD..CRC_FIELD + 4] == U32Bytes(v);
    U32RoundTrip(v);
    U32BytesRoundTrip(h[CRC_FIELD..CRC_FIELD + 4]);
  }

  /** Stores the CRC of the covered bytes and changes no other byte. */
  method SetCrcAltSize(size: nat, hdr: array<bv8>)
    requires HEADER_BYTES <= hdr.Length && size <= hdr.Length
    modifies hdr
    ensures hdr[..] == WithCrc(old(hdr[..]), CoveredCrc(old(hdr[..]), size))
  {
    StoreCrc(hdr, 0);
    var crc := CalculateCrc(hdr, size);
    assert hdr[..size] == hdr[..][..size];
    OverwriteCrc(old(hdr[..]), 0, crc);
    StoreCrc(hdr, crc);
  }

  /** Decides Passes and leaves the header as found. */
  method CheckCrcAltSize(maxSize: nat, size: nat, hdr: array<bv8>) returns (ok: bool)
    requires HEADER_BYTES <= hdr.Length
    requires size == 0 || 0 < maxSize < size || size <= hdr.Length
    modifies hdr
    ensures hdr[..] == old(hdr[..])
    ensures ok == Passes(old(hdr[..]), maxSize, size)
  {
    if size == 0 { return false; }
    if maxSize != 0 && size > maxSize { return false; }
    var orgCrc := U32(hdr[CRC_FIELD..CRC_FIELD + 4]);
    assert hdr[CRC_FIELD..CRC_FIELD + 4] == hdr[..][CRC_FIELD..CRC_FIELD + 4];
    StoreCrc(hdr, 0);
    var crc := CalculateCrc(hdr, size);
    assert hdr[..size] == hdr[..][..size];
    OverwriteCrc(old(hdr[..]), 0, orgCrc);
    StoreCrc(hdr, orgCrc);
    ok := orgCrc == crc;
  }

  method SetCrc(hdr: array<bv8>)
    requires HEADER_BYTES <= hdr.Length && HeaderSize(hdr[..]) <= hdr.Length
    modifies hdr
    ensures hdr[..] == WithCrc(old(hdr[..]), CoveredCrc(old(hdr[..]), HeaderSize(old(hdr[..]))))
  {
    var size := HeaderSize(hdr[..]);
    SetCrcAltSize(size, hdr);
  }

  method CheckCrc(maxSize: nat, hdr: array<bv8>) returns (ok: bool)
    requires HEADER_BYTES <= hdr.Length
    requires HeaderSize(hdr[..]) <= hdr.Length || 0 < maxSize < HeaderSize(hdr[..])
    modifies hdr
    ensures hdr[..] == old(hdr[..])
    ensures ok == Passes(old(hdr[..]), maxSize, HeaderSize(old(hdr[..])))
  {
    var size := HeaderSize(hdr[..]);
    ok := CheckCrcAltSize(maxSize, size, hdr);
  }

  /** A header just sealed passes the check exactly for a nonzero size within the limit. */
  lemma SealedPasses(h: seq<bv8>, maxSize: nat, size: nat)
    requires HEADER_BYTES <= |h| && size <= |h|
    ensures Passes(WithCrc(h, CoveredCrc(h, size)), maxSize, size) <==> 0 < size && (maxSize == 0 || size <= maxSize)
  {
    OverwriteCrc(h, CoveredCrc(h, size), 0);
  }

  /** Clearing the CRC32 field keeps a difference outside it. */
  lemma ClearedDiffers(a: seq<bv8>, b: seq<bv8>, size: nat, lo: nat, hi: nat)
    requires HEADER_BYTES <= |a| && size <= |a| && lo <= hi <= size
    requires AgreeOutside(a, b, lo, hi) && CrcField(a) == CrcField(b)
    requires WithCrc(a, 0)[..size] == WithCrc(b, 0)[..size]
    ensures a == b
  {
    var x, y := WithCrc(a, 0), WithCrc(b, 0);
    forall k | 0 <= k < |x| ensures x[k] == y[k] {
      if k < size {
        assert x[k] == x[..size][k] && y[k] == y[..size][k];
      }
    }
    assert x == y;
    OverwriteCrc(a, 0, CrcField(a));
    OverwriteCrc(b, 0, CrcField(b));
  }

  /** After sealing, no change of up to four consecutive covered bytes that keeps the CRC32 field passes. */
  lemma TamperingFails(h: seq<bv8>, maxSize: nat, size: nat, t: seq<bv8>, lo: nat, hi: nat)
    requires HEADER_BYTES <= |h| && size <= |h|
    requires var sealed := WithCrc(h, CoveredCrc(h, size));
             && lo <= hi <= size && hi - lo <= 4
             && AgreeOutside(sealed, t, lo, hi) && sealed != t
             && CrcField(t) == CrcField(sealed)
    ensures !Passes(t, maxSize, size)
  {
    var crc := CoveredCrc(h, size);
    var sealed := WithCrc(h, crc);
    OverwriteCrc(h, crc, 0);
    var a, b := WithCrc(sealed, 0)[..size], WithCrc(t, 0)[..size];
    assert AgreeOutside(a, b, lo, hi);
    if a == b {
      ClearedDiffers(sealed, t, size, lo, hi);
    }
    BurstChangesCrc(a, b, lo, hi);
  }

  /** A change of the CRC32 field alone never passes either. */
  lemma FieldTamperingFails(h: seq<bv8>, maxSize: nat, size: nat, v: bv32)
    requires HEADER_BYTES <= |h| && size <= |h|
    requires v != CoveredCrc(h, size)
    ensures !Passes(WithCrc(h, v), maxSize, size)
  {
    OverwriteCrc(h, v, 0);
  }
}
