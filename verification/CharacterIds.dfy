/** Ids given as four characters, on hosts where char is signed and on hosts where it is not. */
module CharacterIds {
  import opened Bytes
  import opened ElfSpec
  import opened TableImage

  /** A character converted to an unsigned 32-bit integer: where char is signed, its sign is extended. */
  function Promoted(c: bv8, signed: bool): bv32 {
    if signed && c >= 0x80 then 0xFFFF_FF00 | (c as bv32) else c as bv32
  }

  /** The id that the four characters of an option stand for. */
  function FromCharacters(a: bv8, b: bv8, c: bv8, d: bv8, signed: bool): bv32 {
    (Promoted(a, signed) << 24) | (Promoted(b, signed) << 16) | (Promoted(c, signed) << 8) | Promoted(d, signed)
  }

  /** The bytes of the word are the four characters, the first the most significant. */
  predicate HasBytes(w: bv32, a: bv8, b: bv8, c: bv8, d: bv8) {
    && w >> 24 == a as bv32
    && (w >> 16) & 0xFF == b as bv32
    && (w >> 8) & 0xFF == c as bv32
    && w & 0xFF == d as bv32
  }

  /** Every character with its high bit set, after the first, follows only 0xFF. */
  predicate SignHarmless(a: bv8, b: bv8, c: bv8, d: bv8) {
    && (b >= 0x80 ==> a == 0xFF)
    && (c >= 0x80 ==> b == 0xFF)
    && (d >= 0x80 ==> c == 0xFF)
  }

  lemma UnsignedId(a: bv8, b: bv8, c: bv8, d: bv8)
    ensures HasBytes(FromCharacters(a, b, c, d, false), a, b, c, d)
  {
  }

  lemma SignedId(a: bv8, b: bv8, c: bv8, d: bv8)
    ensures HasBytes(FromCharacters(a, b, c, d, true), a, b, c, d) <==> SignHarmless(a, b, c, d)
  {
  }

  /** Where char is signed, every byte before the last character with its high bit set is 0xFF. */
  lemma SignedBytes(a: bv8, b: bv8, c: bv8, d: bv8, w: bv32)
    requires w == FromCharacters(a, b, c, d, true)
    ensures d >= 0x80 ==> w >> 8 == 0xFF_FFFF && w & 0xFF == d as bv32
    ensures c >= 0x80 && d < 0x80 ==> w >> 16 == 0xFFFF && w & 0xFFFF == ((c as bv32) << 8) | (d as bv32)
    ensures b >= 0x80 && c < 0x80 && d < 0x80 ==> w >> 24 == 0xFF && HasBytes(w, 0xFF, b, c, d)
  {
  }

  // ---------------------------------------------------------------------------
  // In the header
  // ---------------------------------------------------------------------------

  function AsByte(b: bv8): byte {
    b as byte
  }

  lemma AsByteInjective(a: bv8, b: bv8)
    requires AsByte(a) == AsByte(b)
    ensures a == b
  {
    assert (AsByte(a) as bv8) == a && (AsByte(b) as bv8) == b;
  }

  function Byte0(w: bv32): bv8 { (w >> 24) as bv8 }

  function Byte1(w: bv32): bv8 { ((w >> 16) & 0xFF) as bv8 }

  function Byte2(w: bv32): bv8 { ((w >> 8) & 0xFF) as bv8 }

  function Byte3(w: bv32): bv8 { (w & 0xFF) as bv8 }

  lemma BytesNarrowed(w: bv32, a: bv8, b: bv8, c: bv8, d: bv8)
    ensures HasBytes(w, a, b, c, d) <==> Byte0(w) == a && Byte1(w) == b && Byte2(w) == c && Byte3(w) == d
  {
  }

  /** The number that a word denotes. */
  function NumberOf(w: bv32): nat {
    FromBytes(AsByte(Byte0(w)), AsByte(Byte1(w)), AsByte(Byte2(w)), AsByte(Byte3(w)))
  }

  function Four(a: bv8, b: bv8, c: bv8, d: bv8): seq<byte> {
    [AsByte(a), AsByte(b), AsByte(c), AsByte(d)]
  }

  lemma FourInjective(p: bv8, q: bv8, r: bv8, s: bv8, a: bv8, b: bv8, c: bv8, d: bv8)
    ensures Four(p, q, r, s) == Four(a, b, c, d) <==> p == a && q == b && r == c && s == d
  {
    var x, y := Four(p, q, r, s), Four(a, b, c, d);
    if x == y {
      assert x[0] == y[0] && x[1] == y[1] && x[2] == y[2] && x[3] == y[3];
      AsByteInjective(p, a);
      AsByteInjective(q, b);
      AsByteInjective(r, c);
      AsByteInjective(s, d);
    }
  }

  /** A word is written as its bytes, the most significant first. */
  lemma WordWritten(w: bv32)
    ensures Big32(NumberOf(w)) == Four(Byte0(w), Byte1(w), Byte2(w), Byte3(w))
  {
    hide AsByte, Byte0, Byte1, Byte2, Byte3, FromBytes, Big32;
    BytesInOrder(AsByte(Byte0(w)), AsByte(Byte1(w)), AsByte(Byte2(w)), AsByte(Byte3(w)));
  }

  lemma WrittenAsCharacters(w: bv32, a: bv8, b: bv8, c: bv8, d: bv8)
    ensures Big32(NumberOf(w)) == Four(a, b, c, d) <==> HasBytes(w, a, b, c, d)
  {
    hide Big32, NumberOf, Four;
    WordWritten(w);
    FourInjective(Byte0(w), Byte1(w), Byte2(w), Byte3(w), a, b, c, d);
    BytesNarrowed(w, a, b, c, d);
  }

  /**
   * An id given as four characters is written as exactly those four bytes, in order, if and only if char is
   * unsigned on the host or every character of 0x80 or more, after the first, follows only 0xFF. Four ASCII
   * characters always are.
   */
  lemma CharactersInOrder(a: bv8, b: bv8, c: bv8, d: bv8, signed: bool)
    ensures Big32(NumberOf(FromCharacters(a, b, c, d, signed))) == Four(a, b, c, d)
       <==> !signed || SignHarmless(a, b, c, d)
    ensures b < 0x80 && c < 0x80 && d < 0x80 ==>
      Big32(NumberOf(FromCharacters(a, b, c, d, signed))) == Four(a, b, c, d)
  {
    hide Big32, NumberOf, Four, HasBytes;
    WrittenAsCharacters(FromCharacters(a, b, c, d, signed), a, b, c, d);
    if signed {
      SignedId(a, b, c, d);
    } else {
      UnsignedId(a, b, c, d);
    }
  }
}
