/**
 * CRC-16/ARC over single bits: the reflected shift register, the long division it performs, and
 * the error-detection laws it obeys.
 *
 * Bits are listed in the order they enter the register. Bit 0 of the register is the one that
 * falls out next; it is the coefficient of x^15 of the remainder, because the code is reflected.
 */
module Crc16 {

  type Register = r: seq<bool> | |r| == 16 witness seq(16, _ => false)

  function Zeros(n: nat): (z: seq<bool>)
    ensures |z| == n
    ensures forall i | 0 <= i < n :: !z[i]
  {
    seq(n, _ => false)
  }

  const CLEAR: Register := Zeros(16)

  /** 0xA001, the generator 0x8005 reflected. */
  const FEEDBACK: Register := [true, false, false, false, false, false, false, false,
                               false, false, false, false, false, true, false, true]

  /** Addition over GF(2), position by position. */
  function Xor(x: seq<bool>, y: seq<bool>): (z: seq<bool>)
    requires |x| == |y|
    ensures |z| == |x|
    ensures forall i | 0 <= i < |x| :: z[i] == (x[i] != y[i])
  {
    seq(|x|, i requires 0 <= i < |x| => x[i] != y[i])
  }

  /** One shift: the bit that falls out decides whether the feedback is added. */
  function Shift(r: Register): Register {
    var s := r[1..] + [false];
    if r[0] then Xor(s, FEEDBACK) else s
  }

  function ShiftN(r: Register, n: nat): Register
    decreases n
  {
    if n == 0 then r else ShiftN(Shift(r), n - 1)
  }

  /** A message bit is added to the low end of the register before the shift. */
  function BitStep(r: Register, b: bool): Register {
    Shift(r[0 := (r[0] != b)])
  }

  /** The register after a sequence of message bits. */
  function Crc(bits: seq<bool>, r: Register): Register
    decreases |bits|
  {
    if bits == [] then r else Crc(bits[1..], BitStep(r, bits[0]))
  }

  lemma {:induction false} CrcConcat(a: seq<bool>, b: seq<bool>, r: Register)
    ensures Crc(a + b, r) == Crc(b, Crc(a, r))
    decreases |a|
  {
    if a == [] {
      assert a + b == b;
    } else {
      assert (a + b)[1..] == a[1..] + b;
      CrcConcat(a[1..], b, BitStep(r, a[0]));
    }
  }

  // ---------------------------------------------------------------------------
  // Long division over GF(2)
  // ---------------------------------------------------------------------------

  /** x^16 + x^15 + x^2 + 1, highest power first. */
  const GENERATOR: seq<bool> := [true, true, false, false, false, false, false, false, false,
                                 false, false, false, false, false, true, false, true]

  /** Adds a polynomial to the leading coefficients of another. */
  function AddLeading(d: seq<bool>, p: seq<bool>): (z: seq<bool>)
    requires |p| <= |d|
    ensures |z| == |d|
    ensures forall i | 0 <= i < |d| :: z[i] == if i < |p| then d[i] != p[i] else d[i]
  {
    seq(|d|, i requires 0 <= i < |d| => if i < |p| then d[i] != p[i] else d[i])
  }

  /** Schoolbook division by the generator: cancel the leading coefficient until sixteen are left. */
  function Remainder(d: seq<bool>): seq<bool>
    decreases |d|
  {
    if |d| <= 16 then d
    else Remainder((if d[0] then AddLeading(d, GENERATOR) else d)[1..])
  }

  /**
   * The shift register divides: it holds the remainder of the message followed by sixteen zero
   * bits, with the starting register added to the leading sixteen coefficients.
   */
  lemma {:induction false} RegisterIsRemainder(bits: seq<bool>, r: Register)
    ensures Remainder(AddLeading(bits + Zeros(16), r)) == Crc(bits, r)
    decreases |bits|
  {
    var d := AddLeading(bits + Zeros(16), r);
    if bits == [] {
      assert d == r;
    } else {
      var next := (if d[0] then AddLeading(d, GENERATOR) else d)[1..];
      var r' := BitStep(r, bits[0]);
      assert next == AddLeading(bits[1..] + Zeros(16), r') by {
        forall i | 0 <= i < |next|
          ensures next[i] == AddLeading(bits[1..] + Zeros(16), r')[i]
        {
          if i < 16 {
            RegisterBit(r, bits[0], i);
          }
        }
      }
      RegisterIsRemainder(bits[1..], r');
    }
  }

  /** Each new register bit is its upper neighbour plus the generator's coefficient, if that was subtracted. */
  lemma RegisterBit(r: Register, b: bool, i: nat)
    requires i < 16
    ensures BitStep(r, b)[i] == ((if i < 15 then r[i + 1] else false) != ((r[0] != b) && GENERATOR[i + 1]))
  {
    assert i == 0 || i == 1 || i == 2 || i == 3 || i == 4 || i == 5 || i == 6 || i == 7 ||
           i == 8 || i == 9 || i == 10 || i == 11 || i == 12 || i == 13 || i == 14 || i == 15;
  }

  // ---------------------------------------------------------------------------
  // Linearity and invertibility
  // ---------------------------------------------------------------------------

  lemma ShiftLinear(x: Register, y: Register)
    ensures Shift(Xor(x, y)) == Xor(Shift(x), Shift(y))
  {
  }

  lemma {:induction false} ShiftNLinear(x: Register, y: Register, n: nat)
    ensures ShiftN(Xor(x, y), n) == Xor(ShiftN(x, n), ShiftN(y, n))
    decreases n
  {
    if n != 0 {
      ShiftLinear(x, y);
      ShiftNLinear(Shift(x), Shift(y), n - 1);
    }
  }

  /** The CRC is linear over GF(2) in the message and the start together. */
  lemma {:induction false} CrcLinear(x: seq<bool>, y: seq<bool>, c: Register, d: Register)
    requires |x| == |y|
    ensures Crc(Xor(x, y), Xor(c, d)) == Xor(Crc(x, c), Crc(y, d))
    decreases |x|
  {
    if x != [] {
      var c', d' := c[0 := (c[0] != x[0])], d[0 := (d[0] != y[0])];
      assert Xor(c, d)[0 := (Xor(c, d)[0] != Xor(x, y)[0])] == Xor(c', d');
      ShiftLinear(c', d');
      assert Xor(x, y)[1..] == Xor(x[1..], y[1..]);
      CrcLinear(x[1..], y[1..], Shift(c'), Shift(d'));
    }
  }

  /** The inverse of Shift: the top bit tells whether feedback was added. */
  function Unshift(r: Register): Register {
    if r[15] then [true] + Xor(r, FEEDBACK)[..15] else [false] + r[..15]
  }

  lemma UnshiftInverts(r: Register)
    ensures Shift(Unshift(r)) == r
    ensures Unshift(Shift(r)) == r
  {
    var p := Unshift(r);
    if r[15] {
      assert p[1..] + [false] == Xor(r, FEEDBACK);
      assert Xor(Xor(r, FEEDBACK), FEEDBACK) == r;
    } else {
      assert p[1..] + [false] == r;
    }
    var s := r[1..] + [false];
    if r[0] {
      assert Shift(r)[15];
      assert Xor(Shift(r), FEEDBACK) == s;
      assert s[..15] == r[1..];
    } else {
      assert Shift(r)[..15] == r[1..];
    }
  }

  /** Runs a message backwards: the start that leads to a given register. */
  function Rewind(bits: seq<bool>, r: Register): Register
    decreases |bits|
  {
    if bits == [] then r else
      var p := Unshift(Rewind(bits[1..], r));
      p[0 := (p[0] != bits[0])]
  }

  lemma FlipTwice(r: Register, b: bool)
    ensures r[0 := (r[0] != b)][0 := (r[0 := (r[0] != b)][0] != b)] == r
  {
  }

  lemma {:induction false} RewindThenRun(bits: seq<bool>, r: Register)
    ensures Crc(bits, Rewind(bits, r)) == r
    decreases |bits|
  {
    if bits != [] {
      var next := Rewind(bits[1..], r);
      UnshiftInverts(next);
      FlipTwice(Unshift(next), bits[0]);
      assert BitStep(Rewind(bits, r), bits[0]) == next;
      RewindThenRun(bits[1..], r);
    }
  }

  lemma {:induction false} RunThenRewind(bits: seq<bool>, r: Register)
    ensures Rewind(bits, Crc(bits, r)) == r
    decreases |bits|
  {
    if bits != [] {
      RunThenRewind(bits[1..], BitStep(r, bits[0]));
      UnshiftInverts(r[0 := (r[0] != bits[0])]);
      FlipTwice(r, bits[0]);
    }
  }

  /** For fixed data the map from start to result is a bijection, with Rewind as its inverse. */
  lemma StartToResultIsBijection(bits: seq<bool>, r: Register)
    ensures Crc(bits, Rewind(bits, r)) == r
    ensures Rewind(bits, Crc(bits, r)) == r
  {
    RewindThenRun(bits, r);
    RunThenRewind(bits, r);
  }

  // ---------------------------------------------------------------------------
  // Error detection
  // ---------------------------------------------------------------------------

  /** A sequence of at most sixteen bits written at the low end of a register. */
  function Padded(w: seq<bool>): Register
    requires |w| <= 16
  {
    w + Zeros(16 - |w|)
  }

  /** Adding up to sixteen bits at once and then shifting is the same as feeding them one at a time. */
  lemma {:induction false} AddThenShift(w: seq<bool>, r: Register)
    requires |w| <= 16
    ensures Crc(w, r) == ShiftN(Xor(r, Padded(w)), |w|)
    decreases |w|
  {
    if w == [] {
      assert Xor(r, Padded(w)) == r;
    } else {
      var r' := r[0 := (r[0] != w[0])];
      var rest := [false] + Padded(w[1..])[..15];
      assert Xor(r, Padded(w)) == Xor(r', rest);
      ShiftLinear(r', rest);
      assert Shift(rest) == Padded(w[1..]);
      AddThenShift(w[1..], Shift(r'));
    }
  }

  lemma {:induction false} ShiftNClear(r: Register, n: nat)
    ensures ShiftN(r, n) == CLEAR <==> r == CLEAR
    decreases n
  {
    if n != 0 {
      UnshiftInverts(r);
      assert Shift(CLEAR) == CLEAR;
      assert Unshift(CLEAR) == CLEAR;
      ShiftNClear(Shift(r), n - 1);
    }
  }

  /** Zero bits neither clear nor disturb a clear register. */
  lemma {:induction false} ZeroBitsKeep(zeros: seq<bool>, r: Register)
    requires forall i | 0 <= i < |zeros| :: !zeros[i]
    ensures Crc(zeros, r) == CLEAR <==> r == CLEAR
    decreases |zeros|
  {
    if zeros != [] {
      ShiftNClear(r, 1);
      assert r[0 := (r[0] != false)] == r;
      ZeroBitsKeep(zeros[1..], Shift(r));
    }
  }

  lemma BurstLeavesTrace(burst: seq<bool>, i: nat)
    requires |burst| <= 16 && i < |burst| && burst[i]
    ensures Crc(burst, CLEAR) != CLEAR
  {
    AddThenShift(burst, CLEAR);
    assert Xor(CLEAR, Padded(burst))[i];
    ShiftNClear(Xor(CLEAR, Padded(burst)), |burst|);
  }

  /** Nonzero bits between two runs of zeros leave a register that is not clear. */
  lemma BurstBetweenZeros(before: seq<bool>, burst: seq<bool>, after: seq<bool>, i: nat)
    requires forall k | 0 <= k < |before| :: !before[k]
    requires forall k | 0 <= k < |after| :: !after[k]
    requires |burst| <= 16 && i < |burst| && burst[i]
    ensures Crc(before + (burst + after), CLEAR) != CLEAR
  {
    CrcConcat(before, burst + after, CLEAR);
    ZeroBitsKeep(before, CLEAR);
    CrcConcat(burst, after, CLEAR);
    BurstLeavesTrace(burst, i);
    ZeroBitsKeep(after, Crc(burst, CLEAR));
  }

  /** Nonzero bits confined to a window of sixteen leave a register that is not clear. */
  lemma ErrorPatternDetected(e: seq<bool>, start: nat, i: nat)
    requires forall k | 0 <= k < |e| && e[k] :: start <= k < start + 16
    requires i < |e| && e[i]
    ensures Crc(e, CLEAR) != CLEAR
  {
    var end := if start + 16 <= |e| then start + 16 else |e|;
    assert e == e[..start] + (e[start..end] + e[end..]);
    BurstBetweenZeros(e[..start], e[start..end], e[end..], i - start);
  }

  lemma XorSelf(x: seq<bool>, y: seq<bool>)
    requires |x| == |y|
    ensures Xor(x, y) == Zeros(|x|) <==> x == y
  {
    if Xor(x, y) == Zeros(|x|) {
      forall i | 0 <= i < |x| ensures x[i] == y[i] {
        assert !Xor(x, y)[i];
      }
    }
  }

  /**
   * Burst detection: bit sequences of equal length that differ, but only inside one window of
   * sixteen consecutive bits, never have the same CRC, whatever precedes or follows the window.
   */
  lemma BurstDetected(x: seq<bool>, y: seq<bool>, r: Register, start: nat)
    requires |x| == |y| && x != y
    requires forall k | 0 <= k < |x| && x[k] != y[k] :: start <= k < start + 16
    ensures Crc(x, r) != Crc(y, r)
  {
    XorSelf(x, y);
    XorSelf(r, r);
    XorSelf(Crc(x, r), Crc(y, r));
    CrcLinear(x, y, r, r);
    var i :| 0 <= i < |x| && x[i] != y[i];
    ErrorPatternDetected(Xor(x, y), start, i);
  }

  /** True when an odd number of bits is set. */
  function Parity(bits: seq<bool>): bool {
    if bits == [] then false else bits[0] != Parity(bits[1..])
  }

  lemma {:induction false} ParityXor(x: seq<bool>, y: seq<bool>)
    requires |x| == |y|
    ensures Parity(Xor(x, y)) == (Parity(x) != Parity(y))
  {
    if x != [] {
      assert Xor(x, y)[1..] == Xor(x[1..], y[1..]);
      ParityXor(x[1..], y[1..]);
    }
  }

  lemma {:induction false} ParityAppend(x: seq<bool>, b: bool)
    ensures Parity(x + [b]) == (Parity(x) != b)
  {
    if x == [] {
      assert x + [b] == [b];
    } else {
      assert (x + [b])[1..] == x[1..] + [b];
      ParityAppend(x[1..], b);
    }
  }

  lemma FeedbackIsOdd()
    ensures Parity(FEEDBACK)
  {
    assert FEEDBACK == [true] + Zeros(12) + [true] + [false] + [true];
    ParityAppend([true] + Zeros(12) + [true] + [false], true);
    ParityAppend([true] + Zeros(12) + [true], false);
    ParityAppend([true] + Zeros(12), true);
    assert ([true] + Zeros(12))[1..] == Zeros(12);
    ParityXor(Zeros(12), Zeros(12));
    XorSelf(Zeros(12), Zeros(12));
  }

  lemma BitStepParity(r: Register, b: bool)
    ensures Parity(BitStep(r, b)) == (Parity(r) != b)
  {
    var p := r[0 := (r[0] != b)];
    assert p[1..] == r[1..];
    ParityAppend(p[1..], false);
    ParityXor(p[1..] + [false], FEEDBACK);
    FeedbackIsOdd();
  }

  /** Parity is conserved: the register gains exactly the parity of the message bits. */
  lemma {:induction false} ParityConserved(bits: seq<bool>, r: Register)
    ensures Parity(Crc(bits, r)) == (Parity(r) != Parity(bits))
    decreases |bits|
  {
    if bits != [] {
      BitStepParity(r, bits[0]);
      ParityConserved(bits[1..], BitStep(r, bits[0]));
    }
  }

  /** The number of positions at which two bit sequences differ. */
  function Distance(x: seq<bool>, y: seq<bool>): nat
    requires |x| == |y|
  {
    if x == [] then 0 else (if x[0] != y[0] then 1 else 0) + Distance(x[1..], y[1..])
  }

  lemma {:induction false} DistanceParity(x: seq<bool>, y: seq<bool>)
    requires |x| == |y|
    ensures Parity(x) != Parity(y) <==> Distance(x, y) % 2 == 1
  {
    if x != [] {
      DistanceParity(x[1..], y[1..]);
    }
  }

  /** Any odd number of flipped bits changes the CRC. */
  lemma OddErrorsDetected(x: seq<bool>, y: seq<bool>, r: Register)
    requires |x| == |y| && Distance(x, y) % 2 == 1
    ensures Crc(x, r) != Crc(y, r)
  {
    ParityConserved(x, r);
    ParityConserved(y, r);
    DistanceParity(x, y);
  }

  /** Sixteen trailing bits clear the register exactly when they are the register itself, low bit first. */
  lemma ResidueIsClear(bits: seq<bool>, r: Register, trailer: Register)
    ensures Crc(bits + trailer, r) == CLEAR <==> trailer == Crc(bits, r)
  {
    var c := Crc(bits, r);
    CrcConcat(bits, trailer, r);
    AddThenShift(trailer, c);
    assert Padded(trailer) == trailer;
    ShiftNClear(Xor(c, trailer), 16);
    XorSelf(c, trailer);
  }
}
