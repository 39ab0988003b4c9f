/** The CRC tool: the byte loop over a buffer, and the loop that reads one table file in chunks. */
module CrcTool {
  import opened Common
  import opened Crc16
  import opened CrcTable
  import opened CrcWords

  /** What the tool prints: the number of bytes after the headers, and their CRC. */
  datatype Report = Report(size: nat, crc: bv32)

  /** The file header (64 bytes) and the table header (52 bytes) are skipped. */
  const SKIP_SIZE := 116

  const BUFFER_SIZE := 100

  method TableEntryAt(index: bv16) returns (entry: bv16)
    requires index < 256
    ensures entry == ShiftWordN(index, 8)
  {
    TableEntry(index);
    entry := Lookup(index);
  }

  /**
   * The byte loop. The start is taken from the low half of the input, and the result is the final
   * register, sign-extended; its bits are those of the bit-serial register.
   */
  method CalculateCRC(data: array<bv8>, length: nat, input: bv32) returns (result: bv32)
    requires length <= data.Length && length < 0x8000_0000
    ensures result == SignExtend(Low16(result))
    ensures RegBits(Low16(result)) == Crc(Bits(data[..length]), RegBits(Low16(input)))
    ensures HighHalf(result, Crc(Bits(data[..length]), RegBits(Low16(input)))[15])
  {
    var crc: bv16 := Low16(input);
    var i := 0;
    while i < length
      invariant 0 <= i <= length
      invariant RegBits(crc) == Crc(Bits(data[..i]), RegBits(Low16(input)))
    {
      IndexMask(crc, data[i]);
      var index := Index(crc, data[i]);
      var entry := TableEntryAt(index);
      LoopBodyRefinesBits(crc, data[i], entry);
      AppendByte(data[..i], data[i], RegBits(Low16(input)));
      assert data[..i + 1] == data[..i] + [data[i]];
      crc := NextRegister(crc, entry);
      i := i + 1;
    }
    SignExtensionHarmless(crc);
    result := SignExtend(crc);
    SignInHighHalf(crc, result, 15);
  }

  lemma AppendByte(m: seq<bv8>, b: bv8, r: Register)
    ensures Crc(Bits(m + [b]), r) == Crc(ByteBits(b), Crc(Bits(m), r))
  {
    BitsConcat(m, [b]);
    assert Bits([b]) == ByteBits(b) + Bits([b][1..]);
    assert Bits([b]) == ByteBits(b);
    CrcConcat(Bits(m), Bits([b]), r);
  }

  /** Feeding a message in two pieces is feeding it whole. */
  lemma ChunkingIsIrrelevant(a: seq<bv8>, b: seq<bv8>, r: Register)
    ensures Crc(Bits(a + b), r) == Crc(Bits(b), Crc(Bits(a), r))
  {
    BitsConcat(a, b);
    CrcConcat(Bits(a), Bits(b), r);
  }

  lemma NextChunk(payload: seq<bv8>, done: nat, chunk: seq<bv8>)
    requires done + |chunk| <= |payload| && chunk == payload[done..done + |chunk|]
    ensures Crc(Bits(payload[..done + |chunk|]), CLEAR) == Crc(Bits(chunk), Crc(Bits(payload[..done]), CLEAR))
  {
    hide Crc, Bits;
    assert payload[..done + |chunk|] == payload[..done] + chunk;
    ChunkingIsIrrelevant(payload[..done], chunk, CLEAR);
  }

  /** An open file. How many bytes a read delivers, and whether it fails, is up to the system. */
  class InputFile {
    const content: seq<bv8>
    var position: nat
    var failed: bool

    constructor (content: seq<bv8>)
      ensures this.content == content && position == 0 && !failed
    {
      this.content := content;
      position := 0;
      failed := false;
    }

    method Seek(offset: nat)
      modifies this
      ensures position == offset && failed == old(failed)
    {
      position := offset;
    }

    method Read(buffer: array<bv8>) returns (n: int)
      requires buffer.Length > 0
      modifies this, buffer
      ensures n <= buffer.Length
      ensures n < 0 ==> failed
      ensures n >= 0 ==> failed == old(failed)
      ensures n == 0 ==> old(position) >= |content|
      ensures n >= 0 ==> position == old(position) + n
      ensures n > 0 ==> position <= |content| && buffer[..n] == content[old(position)..position]
    {
      if * {
        failed := true;
        n := -1;
      } else if position >= |content| {
        n := 0;
      } else {
        var left := |content| - position;
        n :| 1 <= n <= left && n <= buffer.Length;
        forall i | 0 <= i < n {
          buffer[i] := content[position + i];
        }
        position := position + n;
      }
    }
  }

  /** The bytes after the headers. */
  function Payload(content: seq<bv8>): seq<bv8> {
    if |content| <= SKIP_SIZE then [] else content[SKIP_SIZE..]
  }

  /** What a read delivers after the headers is the next piece of the payload. */
  lemma ChunkOfPayload(content: seq<bv8>, done: nat, chunk: seq<bv8>)
    requires done <= |Payload(content)|
    requires chunk != [] ==>
      SKIP_SIZE + done + |chunk| <= |content| && chunk == content[SKIP_SIZE + done..SKIP_SIZE + done + |chunk|]
    ensures done + |chunk| <= |Payload(content)| && chunk == Payload(content)[done..done + |chunk|]
  {
  }

  lemma NothingRead(payload: seq<bv8>)
    ensures Crc(Bits(payload[..0]), CLEAR) == CLEAR
  {
  }

  lemma NothingLeft(content: seq<bv8>, done: nat)
    requires done <= |Payload(content)| && SKIP_SIZE + done >= |content|
    ensures done == |Payload(content)|
  {
  }

  /**
   * Reads the file from the end of the headers until a read delivers nothing. Unless a read fails,
   * the report is that of the payload taken in one piece, however the reads cut it.
   */
  method ReportFile(file: InputFile) returns (report: Option<Report>)
    requires !file.failed
    modifies file
    ensures report.None? <==> file.failed
    ensures report.Some? ==> report.value.size == |Payload(file.content)|
    ensures report.Some? ==> report.value.crc == SignExtend(Low16(report.value.crc))
    ensures report.Some? ==> RegBits(Low16(report.value.crc)) == Crc(Bits(Payload(file.content)), CLEAR)
    ensures report.Some? ==> HighHalf(report.value.crc, Crc(Bits(Payload(file.content)), CLEAR)[15])
  {
    hide Crc, Bits, RegBits, SignExtend, Low16, Payload, HighHalf;
    var buffer := new bv8[BUFFER_SIZE];
    var fileSize, fileCRC: bv32 := 0, 0;
    ZeroWord(fileCRC);
    NothingRead(Payload(file.content));
    file.Seek(SKIP_SIZE);
    var readSize := 1;
    while readSize > 0
      invariant !file.failed && fresh(buffer) && buffer.Length == BUFFER_SIZE
      invariant file.position == SKIP_SIZE + fileSize
      invariant fileSize <= |Payload(file.content)|
      invariant readSize <= 0 ==> fileSize == |Payload(file.content)|
      invariant fileCRC == SignExtend(Low16(fileCRC))
      invariant RegBits(Low16(fileCRC)) == Crc(Bits(Payload(file.content)[..fileSize]), CLEAR)
      invariant HighHalf(fileCRC, Crc(Bits(Payload(file.content)[..fileSize]), CLEAR)[15])
      decreases readSize > 0, |Payload(file.content)| - fileSize
    {
      readSize := file.Read(buffer);
      if readSize < 0 {
        return None;
      }
      fileCRC := CalculateCRC(buffer, readSize, fileCRC);
      ghost var chunk := buffer[..readSize];
      if readSize == 0 {
        NothingLeft(file.content, fileSize);
      }
      ChunkOfPayload(file.content, fileSize, chunk);
      NextChunk(Payload(file.content), fileSize, chunk);
      fileSize := fileSize + readSize;
    }
    assert Payload(file.content)[..fileSize] == Payload(file.content);
    return Some(Report(fileSize, fileCRC));
  }

  lemma ZeroWord(u: bv32)
    requires u == 0
    ensures u == SignExtend(Low16(u)) && RegBits(Low16(u)) == CLEAR && HighHalf(u, CLEAR[15])
  {
    var c := Low16(u);
    assert c == 0;
    forall i: nat | i < 16 ensures !RegBits(c)[i] {
      ZeroAt(c, i);
    }
  }

  lemma ZeroAt(c: bv16, i: nat)
    requires c == 0 && i < 16
    ensures !BitAt(c, i)
  {
  }

  /** Byte messages that differ within one window of sixteen bits never have the same CRC word. */
  lemma BurstDetectedInWords(x: seq<bv8>, y: seq<bv8>, start: nat, c: bv16, d: bv16, r: Register)
    requires |x| == |y| && x != y
    requires forall k | 0 <= k < |Bits(x)| && Bits(x)[k] != Bits(y)[k] :: start <= k < start + 16
    requires RegBits(c) == Crc(Bits(x), r) && RegBits(d) == Crc(Bits(y), r)
    ensures c != d
  {
    if Bits(x) == Bits(y) {
      BitsInjective(x, y);
    }
    BurstDetected(Bits(x), Bits(y), r, start);
  }

  /** A message followed by its CRC, low byte first, has CRC zero, and only by its CRC. */
  lemma ResidueOfBytes(m: seq<bv8>, low: bv8, high: bv8, r: Register)
    ensures Crc(Bits(m + [low, high]), r) == CLEAR
       <==> ByteBits(low) + ByteBits(high) == Crc(Bits(m), r)
  {
    BitsConcat(m, [low, high]);
    assert [low, high][1..] == [high];
    assert [high][1..] == [];
    assert Bits([low, high]) == ByteBits(low) + ByteBits(high);
    ResidueIsClear(Bits(m), r, ByteBits(low) + ByteBits(high));
  }

  /** Zero bytes neither clear nor disturb a clear register. */
  lemma {:induction false} ZeroBytesKeep(zeros: seq<bv8>, r: Register)
    requires forall i | 0 <= i < |zeros| :: zeros[i] == 0
    ensures Crc(Bits(zeros), r) == CLEAR <==> r == CLEAR
    decreases |zeros|
  {
    if zeros != [] {
      var bits := ByteBits(zeros[0]);
      ZeroByteBits(zeros[0]);
      ZeroBitsKeep(bits, r);
      CrcConcat(bits, Bits(zeros[1..]), r);
      ZeroBytesKeep(zeros[1..], Crc(bits, r));
    }
  }

  lemma ZeroByteBits(b: bv8)
    requires b == 0
    ensures forall i | 0 <= i < 8 :: !ByteBits(b)[i]
  {
    var c := b as bv16;
    assert c == 0;
    forall i: nat | i < 8 ensures !ByteBits(b)[i] {
      ZeroAt(c, i);
    }
  }

  /** Appending the CRC, low byte first, and then any number of zero bytes leaves the register clear. */
  lemma SelfCheck(m: seq<bv8>, c: bv16, low: bv8, high: bv8, zeros: seq<bv8>, r: Register)
    requires RegBits(c) == Crc(Bits(m), r)
    requires low as bv16 == c & 0x00FF && high as bv16 == c >> 8
    requires forall i | 0 <= i < |zeros| :: zeros[i] == 0
    ensures Crc(Bits(m + [low, high] + zeros), r) == CLEAR
  {
    BytesOfWord(c, low, high);
    ResidueOfBytes(m, low, high, r);
    ChunkingIsIrrelevant(m + [low, high], zeros, r);
    ZeroBytesKeep(zeros, CLEAR);
  }
}
