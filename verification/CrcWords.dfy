/** The CRC loop over machine words refines the bit-serial register. */
module CrcWords {
  import opened Crc16
  import opened CrcTable

  // ---------------------------------------------------------------------------
  // Machine words
  // ---------------------------------------------------------------------------

  /** An int16 converted to a 32-bit integer: bits 31..16 are copies of bit 15. */
  function SignExtend(c: bv16): bv32 {
    if c & 0x8000 != 0 then 0xFFFF_0000 | (c as bv32) else c as bv32
  }

  /** Truncation to 16 bits. */
  function Low16(u: bv32): bv16 {
    (u & 0xFFFF) as bv16
  }

  /** The right shift of a negative 32-bit integer copies the sign bit. */
  function ShiftRight8(u: bv32): bv32 {
    if u & 0x8000_0000 != 0 then (u >> 8) | 0xFF00_0000 else u >> 8
  }

  /** The high half of a word repeats a sign bit. */
  predicate HighHalf(u: bv32, sign: bool) {
    u >> 16 == if sign then 0xFFFF else 0
  }

  /** Sign extension keeps the word in the low half and repeats its top bit in the high half. */
  lemma SignExtended(c: bv16)
    ensures SignExtend(c) & 0xFFFF == c as bv32 && HighHalf(SignExtend(c), c & 0x8000 != 0)
  {
    if c & 0x8000 != 0 {
      assert (0xFFFF_0000 | (c as bv32)) & 0xFFFF == c as bv32 && (0xFFFF_0000 | (c as bv32)) >> 16 == 0xFFFF;
    } else {
      assert (c as bv32) & 0xFFFF == c as bv32 && (c as bv32) >> 16 == 0;
    }
  }

  /** Returning the register through a 32-bit integer loses nothing when it is fed back in. */
  lemma SignExtensionHarmless(c: bv16)
    ensures Low16(SignExtend(c)) == c
  {
    if c & 0x8000 != 0 {
      assert ((0xFFFF_0000 | (c as bv32)) & 0xFFFF) as bv16 == c;
    } else {
      assert ((c as bv32) & 0xFFFF) as bv16 == c;
    }
  }

  lemma IndexMask(c: bv16, b: bv8)
    ensures Low16((SignExtend(c) ^ (b as bv32)) & 0x00FF) == (c ^ (b as bv16)) & 0xFF
    ensures Low16((SignExtend(c) ^ (b as bv32)) & 0x00FF) < 256
  {
    if c & 0x8000 != 0 {
      assert (((0xFFFF_0000 | (c as bv32)) ^ (b as bv32)) & 0x00FF) & 0xFFFF == ((c ^ (b as bv16)) & 0xFF) as bv32;
    } else {
      assert (((c as bv32) ^ (b as bv32)) & 0x00FF) & 0xFFFF == ((c ^ (b as bv16)) & 0xFF) as bv32;
    }
  }

  /** The right shift of a negative int16, once masked, is the logical shift. */
  lemma MaskedShift(c: bv16)
    ensures ShiftRight8(SignExtend(c)) & 0x00FF == (c >> 8) as bv32
    ensures c & 0x8000 != 0 ==> SignExtend(c) & 0x8000_0000 != 0 && ShiftRight8(SignExtend(c)) >> 24 == 0xFF
  {
    if c & 0x8000 != 0 {
      assert (0xFFFF_0000 | (c as bv32)) & 0x8000_0000 != 0;
      assert (((0xFFFF_0000 | (c as bv32)) >> 8) | 0xFF00_0000) & 0x00FF == (c >> 8) as bv32;
      assert (((0xFFFF_0000 | (c as bv32)) >> 8) | 0xFF00_0000) >> 24 == 0xFF;
    } else {
      assert (c as bv32) & 0x8000_0000 == 0;
      assert ((c as bv32) >> 8) & 0x00FF == (c >> 8) as bv32;
    }
  }

  lemma TruncatedXor(a: bv16, t: bv16)
    ensures Low16((a as bv32) ^ (t as bv32)) == a ^ t
  {
  }

  // ---------------------------------------------------------------------------
  // Words as bits
  // ---------------------------------------------------------------------------

  function Mask(i: nat): (m: bv16)
    requires i < 16
  {
    if i == 0 then 0x0001 else if i == 1 then 0x0002 else if i == 2 then 0x0004 else
    if i == 3 then 0x0008 else if i == 4 then 0x0010 else if i == 5 then 0x0020 else
    if i == 6 then 0x0040 else if i == 7 then 0x0080 else if i == 8 then 0x0100 else
    if i == 9 then 0x0200 else if i == 10 then 0x0400 else if i == 11 then 0x0800 else
    if i == 12 then 0x1000 else if i == 13 then 0x2000 else if i == 14 then 0x4000 else
    0x8000
  }

  predicate Single(m: bv16) {
    m == 0x0001 || m == 0x0002 || m == 0x0004 || m == 0x0008 || m == 0x0010 || m == 0x0020 || m == 0x0040 || m == 0x0080 ||
    m == 0x0100 || m == 0x0200 || m == 0x0400 || m == 0x0800 || m == 0x1000 || m == 0x2000 || m == 0x4000 || m == 0x8000
  }

  predicate BitAt(c: bv16, i: nat)
    requires i < 16
  {
    c & Mask(i) != 0
  }

  /** The register a 16-bit word stands for, least significant bit first. */
  function RegBits(c: bv16): Register {
    seq(16, i requires 0 <= i < 16 => BitAt(c, i))
  }

  /** The bits of a byte, least significant first. */
  function ByteBits(b: bv8): (bits: seq<bool>)
    ensures |bits| == 8
  {
    RegBits(b as bv16)[..8]
  }

  /** The bits of a message in the order they enter the register. */
  function Bits(m: seq<bv8>): (bits: seq<bool>)
    ensures |bits| == 8 * |m|
  {
    if m == [] then [] else ByteBits(m[0]) + Bits(m[1..])
  }

  lemma MaskSingle(i: nat)
    requires i < 16
    ensures Single(Mask(i))
  {
  }

  lemma MaskStep(i: nat)
    requires i < 15
    ensures Mask(i) != 0x8000 && Mask(i + 1) == Mask(i) << 1
  {
  }

  lemma XorMask(c: bv16, d: bv16, m: bv16)
    requires Single(m)
    ensures ((c ^ d) & m != 0) == ((c & m != 0) != (d & m != 0))
  {
  }

  lemma HalfMask(c: bv16, h: bv16, m: bv16)
    requires Single(m) && m != 0x8000 && h == c >> 1
    ensures (h & m != 0) == (c & (m << 1) != 0)
  {
  }

  lemma XorAt(c: bv16, d: bv16, i: nat)
    requires i < 16
    ensures BitAt(c ^ d, i) == (BitAt(c, i) != BitAt(d, i))
  {
    MaskSingle(i);
    XorMask(c, d, Mask(i));
  }

  lemma XorBits(c: bv16, d: bv16)
    ensures RegBits(c ^ d) == Xor(RegBits(c), RegBits(d))
  {
    forall i: nat | i < 16 ensures RegBits(c ^ d)[i] == Xor(RegBits(c), RegBits(d))[i] {
      XorAt(c, d, i);
    }
  }

  predicate IsHalf(c: bv16, h: bv16) {
    h == c >> 1
  }

  lemma HalfAt(c: bv16, h: bv16, m: bv16, n: bv16, i: nat)
    requires i < 15 && IsHalf(c, h) && m == Mask(i) && n == Mask(i + 1)
    ensures (h & m != 0) == (c & n != 0)
  {
    MaskSingle(i);
    MaskStep(i);
    HalfMask(c, h, m);
  }

  lemma TopOfHalf(c: bv16)
    ensures (c >> 1) & 0x8000 == 0
  {
  }

  lemma TopAt(c: bv16, i: nat)
    requires i == 15
    ensures !BitAt(c >> 1, i)
  {
    TopOfHalf(c);
  }

  lemma HalfBit(c: bv16, h: bv16, i: nat, j: nat)
    requires IsHalf(c, h) && i < 15 && j == i + 1
    ensures BitAt(h, i) == BitAt(c, j)
  {
    hide Mask, IsHalf;
    HalfAt(c, h, Mask(i), Mask(j), i);
  }

  lemma HalfBits(c: bv16, h: bv16)
    requires h == c >> 1
    ensures RegBits(h) == RegBits(c)[1..] + [false]
  {
    hide BitAt;
    forall i: nat | i < 15 ensures BitAt(h, i) == BitAt(c, i + 1) {
      HalfBit(c, h, i, i + 1);
    }
    TopAt(c, 15);
    var r := RegBits(c)[1..] + [false];
    forall i: nat | i < 16 ensures RegBits(h)[i] == r[i] {
      if i < 15 {
        assert r[i] == BitAt(c, i + 1);
      }
    }
  }

  lemma FeedbackAt(i: nat)
    requires i < 16
    ensures BitAt(0xA001, i) == FEEDBACK[i]
  {
    if
    case i == 0 => assert (0xA001 as bv16) & 0x0001 != 0;
    case i == 1 => assert (0xA001 as bv16) & 0x0002 == 0;
    case i == 2 => assert (0xA001 as bv16) & 0x0004 == 0;
    case i == 3 => assert (0xA001 as bv16) & 0x0008 == 0;
    case i == 4 => assert (0xA001 as bv16) & 0x0010 == 0;
    case i == 5 => assert (0xA001 as bv16) & 0x0020 == 0;
    case i == 6 => assert (0xA001 as bv16) & 0x0040 == 0;
    case i == 7 => assert (0xA001 as bv16) & 0x0080 == 0;
    case i == 8 => assert (0xA001 as bv16) & 0x0100 == 0;
    case i == 9 => assert (0xA001 as bv16) & 0x0200 == 0;
    case i == 10 => assert (0xA001 as bv16) & 0x0400 == 0;
    case i == 11 => assert (0xA001 as bv16) & 0x0800 == 0;
    case i == 12 => assert (0xA001 as bv16) & 0x1000 == 0;
    case i == 13 => assert (0xA001 as bv16) & 0x2000 != 0;
    case i == 14 => assert (0xA001 as bv16) & 0x4000 == 0;
    case i == 15 => assert (0xA001 as bv16) & 0x8000 != 0;
  }

  lemma FeedbackBits()
    ensures RegBits(0xA001) == FEEDBACK
  {
    forall i: nat | i < 16 ensures RegBits(0xA001)[i] == FEEDBACK[i] {
      FeedbackAt(i);
    }
  }

  lemma LowBit(c: bv16, i: nat)
    requires i == 0
    ensures RegBits(c)[i] == (c & 1 != 0)
  {
    assert BitAt(c, i) == (c & 1 != 0);
  }

  /** The word shift and the register shift agree. */
  lemma ShiftWordBits(c: bv16)
    ensures RegBits(ShiftWord(c)) == Shift(RegBits(c))
  {
    LowBit(c, 0);
    HalfBits(c, c >> 1);
    XorBits(c >> 1, 0xA001);
    FeedbackBits();
  }

  lemma {:induction false} ShiftWordNBits(c: bv16, n: nat)
    ensures RegBits(ShiftWordN(c, n)) == ShiftN(RegBits(c), n)
    decreases n
  {
    if n != 0 {
      ShiftWordBits(c);
      ShiftWordNBits(ShiftWord(c), n - 1);
    }
  }

  lemma ByteMask(b: bv8, m: bv16)
    requires Single(m) && m >= 0x0100
    ensures (b as bv16) & m == 0
  {
  }

  lemma ByteAt(b: bv8, i: nat)
    requires 8 <= i < 16
    ensures !BitAt(b as bv16, i)
  {
    MaskSingle(i);
    assert Mask(i) >= 0x0100;
    ByteMask(b, Mask(i));
  }

  lemma ByteIsPadded(b: bv8)
    ensures RegBits(b as bv16) == Padded(ByteBits(b))
  {
    forall i: nat | i < 16 ensures RegBits(b as bv16)[i] == Padded(ByteBits(b))[i] {
      if i >= 8 {
        ByteAt(b, i);
      }
    }
  }

  lemma NonzeroHasBit(x: bv16) returns (i: nat)
    requires x != 0
    ensures i < 16 && BitAt(x, i)
  {
    if x & 0x0001 != 0 {
      i := 0;
    } else if x & 0x0002 != 0 {
      i := 1;
    } else if x & 0x0004 != 0 {
      i := 2;
    } else if x & 0x0008 != 0 {
      i := 3;
    } else if x & 0x0010 != 0 {
      i := 4;
    } else if x & 0x0020 != 0 {
      i := 5;
    } else if x & 0x0040 != 0 {
      i := 6;
    } else if x & 0x0080 != 0 {
      i := 7;
    } else if x & 0x0100 != 0 {
      i := 8;
    } else if x & 0x0200 != 0 {
      i := 9;
    } else if x & 0x0400 != 0 {
      i := 10;
    } else if x & 0x0800 != 0 {
      i := 11;
    } else if x & 0x1000 != 0 {
      i := 12;
    } else if x & 0x2000 != 0 {
      i := 13;
    } else if x & 0x4000 != 0 {
      i := 14;
    } else {
      i := 15;
    }
  }

  lemma XorNonzero(c: bv16, d: bv16)
    requires c != d
    ensures c ^ d != 0
  {
  }

  /** Equal registers are equal words. */
  lemma RegBitsInjective(c: bv16, d: bv16)
    requires RegBits(c) == RegBits(d)
    ensures c == d
  {
    if c != d {
      XorNonzero(c, d);
      var i := NonzeroHasBit(c ^ d);
      assert RegBits(c)[i] == BitAt(c, i) && RegBits(d)[i] == BitAt(d, i);
      XorAt(c, d, i);
    }
  }

  lemma SameByte(a: bv8, b: bv8)
    requires a as bv16 == b as bv16
    ensures a == b
  {
  }

  lemma ByteBitsInjective(a: bv8, b: bv8)
    requires ByteBits(a) == ByteBits(b)
    ensures a == b
  {
    ByteIsPadded(a);
    ByteIsPadded(b);
    RegBitsInjective(a as bv16, b as bv16);
    SameByte(a, b);
  }

  lemma {:induction false} BitsConcat(a: seq<bv8>, b: seq<bv8>)
    ensures Bits(a + b) == Bits(a) + Bits(b)
  {
    if a == [] {
      assert a + b == b;
    } else {
      assert (a + b)[1..] == a[1..] + b;
      BitsConcat(a[1..], b);
    }
  }

  /** Different messages of equal length differ in some bit. */
  lemma {:induction false} BitsInjective(x: seq<bv8>, y: seq<bv8>)
    requires |x| == |y| && Bits(x) == Bits(y)
    ensures x == y
  {
    if x != [] {
      assert ByteBits(x[0]) == Bits(x)[..8] == Bits(y)[..8] == ByteBits(y[0]);
      ByteBitsInjective(x[0], y[0]);
      assert Bits(x[1..]) == Bits(x)[8..] == Bits(y)[8..] == Bits(y[1..]);
      BitsInjective(x[1..], y[1..]);
    }
  }

  lemma LowMask(c: bv16, w: bv16, m: bv16)
    requires Single(m) && m < 0x0100 && w == c & 0x00FF
    ensures (w & m != 0) == (c & m != 0)
  {
  }

  lemma HighMask(c: bv16, w: bv16, m: bv16)
    requires Single(m) && m < 0x0100 && w == c >> 8
    ensures (w & m != 0) == (c & (m << 8) != 0)
  {
  }

  lemma MaskByte(i: nat)
    requires i < 8
    ensures Mask(i) < 0x0100 && Mask(i + 8) == Mask(i) << 8
  {
  }

  lemma LowAt(c: bv16, w: bv16, i: nat)
    requires i < 8 && w == c & 0x00FF
    ensures BitAt(w, i) == BitAt(c, i)
  {
    MaskSingle(i);
    MaskByte(i);
    LowMask(c, w, Mask(i));
  }

  lemma HighAt(c: bv16, w: bv16, m: bv16, n: bv16, i: nat)
    requires i < 8 && w == c >> 8 && m == Mask(i) && n == Mask(i + 8)
    ensures (w & m != 0) == (c & n != 0)
  {
    MaskSingle(i);
    MaskByte(i);
    HighMask(c, w, m);
  }

  lemma HighBit(c: bv16, w: bv16, i: nat, j: nat)
    requires i < 8 && w == c >> 8 && j == i + 8
    ensures BitAt(w, i) == BitAt(c, j)
  {
    HighAt(c, w, Mask(i), Mask(j), i);
  }

  lemma HalvesOfWord(c: bv16, l: bv16, h: bv16)
    requires l == c & 0x00FF && h == c >> 8
    ensures RegBits(l)[..8] + RegBits(h)[..8] == RegBits(c)
  {
    hide BitAt;
    forall i: nat | i < 8 ensures BitAt(l, i) == BitAt(c, i) && BitAt(h, i) == BitAt(c, i + 8) {
      LowAt(c, l, i);
      HighBit(c, h, i, i + 8);
    }
    var r := RegBits(l)[..8] + RegBits(h)[..8];
    forall i: nat | i < 16 ensures r[i] == RegBits(c)[i] {
      if i >= 8 {
        assert r[i] == BitAt(h, i - 8);
      }
    }
  }

  /** The low byte and then the high byte of a word hold its bits in order. */
  lemma BytesOfWord(c: bv16, low: bv8, high: bv8)
    requires low as bv16 == c & 0x00FF && high as bv16 == c >> 8
    ensures ByteBits(low) + ByteBits(high) == RegBits(c)
  {
    HalvesOfWord(c, low as bv16, high as bv16);
  }

  /** Shifting is linear over exclusive or. */
  lemma ShiftWordNLinear(x: bv16, y: bv16, z: bv16, n: nat)
    requires RegBits(z) == Xor(RegBits(x), RegBits(y))
    ensures ShiftWordN(z, n) == ShiftWordN(x, n) ^ ShiftWordN(y, n)
  {
    hide RegBits, ShiftWordN, Xor, ShiftN;
    ShiftWordNBits(x, n);
    ShiftWordNBits(y, n);
    ShiftWordNBits(z, n);
    ShiftNLinear(RegBits(x), RegBits(y), n);
    XoredWord(ShiftWordN(x, n), ShiftWordN(y, n), ShiftWordN(z, n));
  }

  lemma SignInHighHalf(c: bv16, u: bv32, i: nat)
    requires u == SignExtend(c) && i == 15
    ensures HighHalf(u, RegBits(c)[i])
  {
    SignExtended(c);
    TopBit(c, i);
  }

  lemma TopBit(c: bv16, i: nat)
    requires i == 15
    ensures RegBits(c)[i] == (c & 0x8000 != 0)
  {
    assert BitAt(c, i) == (c & 0x8000 != 0);
  }

  lemma XoredWord(p: bv16, q: bv16, r: bv16)
    requires RegBits(r) == Xor(RegBits(p), RegBits(q))
    ensures r == p ^ q
  {
    hide RegBits, Xor;
    XorBits(p, q);
    RegBitsInjective(r, p ^ q);
  }

  lemma XorCommutes(x: bv16, y: bv16)
    ensures x ^ y == y ^ x
  {
  }

  /** Adding the entry of the low byte to the high byte is eight shifts of the whole word. */
  lemma EntryPlusHighByte(c: bv16, low: bv16, entry: bv16)
    requires low == c & 0xFF && entry == ShiftWordN(low, 8)
    ensures (c >> 8) ^ entry == ShiftWordN(c, 8)
  {
    var high := c & 0xFF00;
    SplitWord(c, low, high);
    HighByteShiftsThrough(high);
    XorBits(low, high);
    ShiftWordNLinear(low, high, c, 8);
    XorCommutes(c >> 8, entry);
  }

  // ---------------------------------------------------------------------------
  // One byte of the loop refines eight bit steps
  // ---------------------------------------------------------------------------

  /** The register after one pass of the loop body, given the index and the entry it selected. */
  function NextRegister(c: bv16, entry: bv16): bv16 {
    Low16((ShiftRight8(SignExtend(c)) & 0x00FF) ^ (entry as bv32))
  }

  function Index(c: bv16, b: bv8): bv16 {
    Low16((SignExtend(c) ^ (b as bv32)) & 0x00FF)
  }

  lemma NextRegisterUnsigned(c: bv16, entry: bv16)
    ensures NextRegister(c, entry) == (c >> 8) ^ entry
  {
    MaskedShift(c);
    TruncatedXor(c >> 8, entry);
  }

  lemma ByteLeavesHighByte(c: bv16, b: bv8)
    ensures (c ^ (b as bv16)) >> 8 == c >> 8
  {
  }

  lemma NextRegisterIsShifts(c: bv16, b: bv8, x: bv16, entry: bv16)
    requires x == c ^ (b as bv16)
    requires entry == ShiftWordN(Index(c, b), 8)
    ensures NextRegister(c, entry) == ShiftWordN(x, 8)
  {
    IndexMask(c, b);
    NextRegisterUnsigned(c, entry);
    ByteLeavesHighByte(c, b);
    EntryPlusHighByte(x, x & 0xFF, entry);
  }

  /** One pass of the loop body does the work of eight bit steps, for every register and byte. */
  lemma LoopBodyRefinesBits(c: bv16, b: bv8, entry: bv16)
    requires entry == ShiftWordN(Index(c, b), 8)
    ensures RegBits(NextRegister(c, entry)) == Crc(ByteBits(b), RegBits(c))
  {
    var x := c ^ (b as bv16);
    NextRegisterIsShifts(c, b, x, entry);
    ShiftWordNBits(x, 8);
    XorBits(c, b as bv16);
    ByteIsPadded(b);
    AddThenShift(ByteBits(b), RegBits(c));
  }
}
