/** Bytes as eight-bit words. */
module ByteWords {

  function Octet(b: int): bv8
    requires 0 <= b < 256
  {
    b as bv8
  }

  lemma Cast(b: int)
    requires 0 <= b < 256
    ensures (b as bv8) as int == b
  {
  }

  /** An octet has the value of its byte. */
  lemma OctetValue(b: int)
    requires 0 <= b < 256
    ensures Octet(b) as int == b
  {
    Cast(b);
  }
}
