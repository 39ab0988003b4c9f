/** Bytes in memory: integers in either byte order, in-place swaps, and C strings. */
module Bytes {

  type byte = b: int | 0 <= b < 256

  /** 256 to the power n. */
  function Span(n: nat): (p: nat)
    ensures p > 0
  {
    if n == 0 then 1 else 256 * Span(n - 1)
  }

  function Reverse(s: seq<byte>): (r: seq<byte>)
    ensures |r| == |s|
    ensures forall i | 0 <= i < |s| :: r[i] == s[|s| - 1 - i]
  {
    seq(|s|, i requires 0 <= i < |s| => s[|s| - 1 - i])
  }

  function LittleValue(s: seq<byte>): (v: nat)
    ensures v < Span(|s|)
  {
    if s == [] then 0 else s[0] + 256 * LittleValue(s[1..])
  }

  /** The unsigned integer that bytes denote in the given byte order. */
  function Decode(s: seq<byte>, little: bool): (v: nat)
    ensures v < Span(|s|)
  {
    LittleValue(if little then s else Reverse(s))
  }

  function LittleBytes(v: nat, n: nat): (s: seq<byte>)
    ensures |s| == n
  {
    if n == 0 then [] else [v % 256] + LittleBytes(v / 256, n - 1)
  }

  /** The n low-order bytes of an integer in the given byte order. */
  function Encode(v: nat, n: nat, little: bool): (s: seq<byte>)
    ensures |s| == n
  {
    if little then LittleBytes(v, n) else Reverse(LittleBytes(v, n))
  }

  lemma {:induction false} LittleRoundTrip(v: nat, n: nat)
    requires v < Span(n)
    ensures LittleValue(LittleBytes(v, n)) == v
    decreases n
  {
    if n != 0 {
      LittleRoundTrip(v / 256, n - 1);
      assert LittleBytes(v, n)[1..] == LittleBytes(v / 256, n - 1);
    }
  }

  lemma ReverseTwice(s: seq<byte>)
    ensures Reverse(Reverse(s)) == s
  {
  }

  /** Decoding in the order used for encoding recovers the integer. */
  lemma EncodeRoundTrip(v: nat, n: nat, little: bool)
    requires v < Span(n)
    ensures Decode(Encode(v, n, little), little) == v
  {
    LittleRoundTrip(v, n);
    ReverseTwice(LittleBytes(v, n));
  }

  /** Reversed bytes read in one order are the original bytes read in the other. */
  lemma ReverseFlipsOrder(s: seq<byte>, little: bool)
    ensures Decode(Reverse(s), little) == Decode(s, !little)
    ensures Reverse(Encode(LittleValue(s), |s|, little)) == Encode(LittleValue(s), |s|, !little)
  {
    ReverseTwice(s);
    ReverseTwice(LittleBytes(LittleValue(s), |s|));
  }

  lemma SliceOfSlice(s: seq<byte>, at: nat, size: nat, from: nat, n: nat)
    requires at + size <= |s| && from + n <= size
    ensures s[at..at + size][from..from + n] == s[at + from..at + from + n]
  {
    var outer, inner := s[at + from..at + from + n], s[at..at + size][from..from + n];
    assert forall k | 0 <= k < n :: outer[k] == inner[k];
  }

  // ---------------------------------------------------------------------------
  // Swapping fields of a record in place
  // ---------------------------------------------------------------------------

  /** A field of a record: where it starts and how many bytes it has. */
  datatype Field = Field(at: nat, width: nat) {
    predicate Fits(size: nat) {
      at + width <= size
    }

    predicate Apart(other: Field) {
      at + width <= other.at || other.at + other.width <= at
    }
  }

  function Slice(s: seq<byte>, f: Field): (r: seq<byte>)
    requires f.Fits(|s|)
    ensures |r| == f.width
  {
    s[f.at..f.at + f.width]
  }

  function SwapField(s: seq<byte>, f: Field): (r: seq<byte>)
    requires f.Fits(|s|)
    ensures |r| == |s|
  {
    s[..f.at] + Reverse(Slice(s, f)) + s[f.at + f.width..]
  }

  /** All fields of a list swapped, first to last. */
  function SwapFields(s: seq<byte>, fields: seq<Field>): (r: seq<byte>)
    requires forall f | f in fields :: f.Fits(|s|)
    ensures |r| == |s|
  {
    if fields == [] then s
    else SwapField(SwapFields(s, fields[..|fields| - 1]), fields[|fields| - 1])
  }

  ghost predicate Disjoint(fields: seq<Field>) {
    forall i, j | 0 <= i < j < |fields| :: fields[i].Apart(fields[j])
  }

  lemma SwapFieldSlices(s: seq<byte>, f: Field, g: Field)
    requires f.Fits(|s|) && g.Fits(|s|)
    ensures Slice(SwapField(s, f), f) == Reverse(Slice(s, f))
    ensures g.Apart(f) ==> Slice(SwapField(s, f), g) == Slice(s, g)
  {
  }

  /** Swapping a list of disjoint fields reverses each of them and leaves every other slice alone. */
  lemma {:induction false} SwapFieldsSlices(s: seq<byte>, fields: seq<Field>, g: Field)
    requires forall f | f in fields :: f.Fits(|s|)
    requires Disjoint(fields) && g.Fits(|s|)
    ensures g in fields ==> Slice(SwapFields(s, fields), g) == Reverse(Slice(s, g))
    ensures (forall f | f in fields :: g.Apart(f)) ==> Slice(SwapFields(s, fields), g) == Slice(s, g)
    decreases |fields|
  {
    if fields != [] {
      var n := |fields| - 1;
      var last, front := fields[n], fields[..n];
      SwapFieldsSlices(s, front, g);
      SwapFieldSlices(SwapFields(s, front), last, g);
      if g == last {
        assert forall f | f in front :: g.Apart(f);
      } else if g in fields {
        assert g in front;
        var i :| 0 <= i < n && fields[i] == g;
        assert fields[i].Apart(fields[n]);
      }
    }
  }

  /** Swapping the same disjoint fields twice restores every field and every other slice. */
  lemma SwapFieldsInvolution(s: seq<byte>, fields: seq<Field>, g: Field)
    requires forall f | f in fields :: f.Fits(|s|)
    requires Disjoint(fields) && g.Fits(|s|)
    requires g in fields || forall f | f in fields :: g.Apart(f)
    ensures Slice(SwapFields(SwapFields(s, fields), fields), g) == Slice(s, g)
  {
    SwapFieldsSlices(s, fields, g);
    SwapFieldsSlices(SwapFields(s, fields), fields, g);
    ReverseTwice(Slice(s, g));
  }

  /** A record as the program holds it: fields swapped when host and file byte orders differ. */
  function HostForm(s: seq<byte>, fields: seq<Field>, swap: bool): (r: seq<byte>)
    requires forall f | f in fields :: f.Fits(|s|)
    ensures |r| == |s|
  {
    if swap then SwapFields(s, fields) else s
  }

  /**
   * Host-independent field decoding: whatever the byte orders of host and file, a field of the
   * conditionally swapped record, read by the host, is the direct decode of its file bytes.
   */
  lemma FieldDecoding(s: seq<byte>, fields: seq<Field>, f: Field, host: bool, file: bool)
    requires forall f | f in fields :: f.Fits(|s|)
    requires Disjoint(fields) && f in fields
    ensures Decode(Slice(HostForm(s, fields, host != file), f), host) == Decode(Slice(s, f), file)
  {
    SwapFieldsSlices(s, fields, f);
    ReverseFlipsOrder(Slice(s, f), host);
  }

  /** A field is swapped when byte at + k has moved to the mirrored place and nothing else has changed. */
  lemma SwappedElementwise(before: seq<byte>, after: seq<byte>, f: Field)
    requires f.Fits(|before|) && |after| == |before|
    requires forall k | f.at <= k < f.at + f.width :: after[k] == before[2 * f.at + f.width - 1 - k]
    requires after[..f.at] == before[..f.at] && after[f.at + f.width..] == before[f.at + f.width..]
    ensures after == SwapField(before, f)
  {
    assert Slice(after, f) == Reverse(Slice(before, f));
    assert after == after[..f.at] + Slice(after, f) + after[f.at + f.width..];
  }

  method Exchange(buffer: array<byte>, i: nat, j: nat)
    requires i < j < buffer.Length
    modifies buffer
    ensures buffer[..] == old(buffer[..])[i := old(buffer[j])][j := old(buffer[i])]
  {
    var temp := buffer[j];
    buffer[j] := buffer[i];
    buffer[i] := temp;
  }

  method SwapUInt16(buffer: array<byte>, at: nat)
    requires at + 2 <= buffer.Length
    modifies buffer
    ensures buffer[..] == SwapField(old(buffer[..]), Field(at, 2))
  {
    Exchange(buffer, at, at + 1);
    SwappedElementwise(old(buffer[..]), buffer[..], Field(at, 2));
  }

  method SwapUInt32(buffer: array<byte>, at: nat)
    requires at + 4 <= buffer.Length
    modifies buffer
    ensures buffer[..] == SwapField(old(buffer[..]), Field(at, 4))
  {
    Exchange(buffer, at, at + 3);
    Exchange(buffer, at + 1, at + 2);
    SwappedElementwise(old(buffer[..]), buffer[..], Field(at, 4));
  }

  method SwapUInt64(buffer: array<byte>, at: nat)
    requires at + 8 <= buffer.Length
    modifies buffer
    ensures buffer[..] == SwapField(old(buffer[..]), Field(at, 8))
  {
    Exchange(buffer, at, at + 7);
    Exchange(buffer, at + 1, at + 6);
    Exchange(buffer, at + 2, at + 5);
    Exchange(buffer, at + 3, at + 4);
    SwappedElementwise(old(buffer[..]), buffer[..], Field(at, 8));
  }

  /** The bytes of an ASCII text. */
  function Ascii(text: string): (r: seq<byte>)
    requires forall i | 0 <= i < |text| :: text[i] < 128 as char
    ensures |r| == |text|
    ensures forall i | 0 <= i < |r| :: r[i] == text[i] as int
  {
    seq(|text|, i requires 0 <= i < |text| => text[i] as int)
  }

  // ---------------------------------------------------------------------------
  // C strings
  // ---------------------------------------------------------------------------

  /** The bytes from a position up to the first zero byte, or to the end when there is none. */
  function CString(s: seq<byte>, at: nat): (r: seq<byte>)
    requires at <= |s|
    ensures at + |r| <= |s| && r == s[at..at + |r|]
    ensures 0 !in r
    ensures at + |r| < |s| ==> s[at + |r|] == 0
    decreases |s| - at
  {
    if at == |s| || s[at] == 0 then [] else [s[at]] + CString(s, at + 1)
  }

  /** The string at a position is the unique zero-free run that a zero byte ends. */
  lemma {:induction false} CStringUnique(s: seq<byte>, at: nat, r: seq<byte>)
    requires at + |r| < |s| && s[at..at + |r|] == r && 0 !in r && s[at + |r|] == 0
    ensures CString(s, at) == r
    decreases |r|
  {
    if r != [] {
      assert s[at] == r[0];
      CStringUnique(s, at + 1, r[1..]);
    }
  }
}
