/** The ELF to cFE table translator, with its globals as fields and the source file as bytes and a position. */
module Elf2CfeTbl {
  import opened Common
  import opened Bytes
  import opened ElfLayout
  import opened ElfSpec

  const EOF := -1

  // ---------------------------------------------------------------------------
  // Records in host memory
  // ---------------------------------------------------------------------------

  /** The unsigned integer the host sees in a field of a record in memory. */
  function HostField(raw: seq<byte>, f: Field, host: bool): nat {
    if f.Fits(|raw|) then Decode(Slice(raw, f), host) else 0
  }

  /** A record that was read and conditionally swapped shows the host the direct decode of the file. */
  lemma LoadedField(src: seq<byte>, little: bool, host: bool, at: nat, size: nat, fields: seq<Field>, f: Field)
    requires Holds(src, at, size) && FieldsFit(fields, size) && Disjoint(fields) && f in fields
    ensures HostField(HostForm(src[at..at + size], fields, host != little), f, host) == FieldAt(src, little, at, f)
  {
    hide Decode, HostForm, Slice, Disjoint;
    var record := src[at..at + size];
    assert f.Fits(size);
    FieldDecoding(record, fields, f, host, little);
    SliceOfRecord(src, at, size, f);
    var raw := HostForm(record, fields, host != little);
    assert HostField(raw, f, host) == Decode(Slice(raw, f), host);
  }

  lemma SliceOfRecord(src: seq<byte>, at: nat, size: nat, f: Field)
    requires Holds(src, at, size) && f.Fits(size)
    ensures Slice(src[at..at + size], f) == src[at + f.at..at + f.at + f.width]
  {
    SliceOfSlice(src, at, size, f.at, f.width);
  }

  /** The fields of a record in host memory are those of the record at a file position. */
  ghost predicate Shows(raw: seq<byte>, host: bool, src: seq<byte>, little: bool, at: int, fields: seq<Field>) {
    forall f | f in fields :: HostField(raw, f, host) == FieldAt(src, little, at, f)
  }

  lemma LoadedRecord(src: seq<byte>, little: bool, host: bool, at: nat, size: nat, fields: seq<Field>)
    requires Holds(src, at, size) && FieldsFit(fields, size) && Disjoint(fields)
    ensures Shows(HostForm(src[at..at + size], fields, host != little), host, src, little, at, fields)
  {
    forall f | f in fields
      ensures HostField(HostForm(src[at..at + size], fields, host != little), f, host) == FieldAt(src, little, at, f)
    {
      LoadedField(src, little, host, at, size, fields, f);
    }
  }

  method GetStringFromMap(map0: seq<int>, key: int) returns (found: bool)
    ensures found <==> key in map0
  {
    var i := 0;
    while i < |map0|
      invariant 0 <= i <= |map0|
      invariant key !in map0[..i]
    {
      if map0[i] == key {
        return true;
      }
      i := i + 1;
    }
    return false;
  }

  /** The kinds of record the program reads, with the size and swap list of each. */
  datatype Record = FileHeader | SectionHeader | SymbolEntry {
    function Size(is32: bool): nat {
      match this
      case FileHeader => EhdrSize(is32)
      case SectionHeader => ShdrSize(is32)
      case SymbolEntry => SymSize(is32)
    }

    function Fields(is32: bool): seq<Field> {
      match this
      case FileHeader => EhdrFields(is32)
      case SectionHeader => ShdrFields(is32)
      case SymbolEntry => SymFields(is32)
    }
  }

  lemma RecordFields(k: Record, is32: bool)
    ensures FieldsFit(k.Fields(is32), k.Size(is32)) && Disjoint(k.Fields(is32))
  {
    match k
    case FileHeader => EhdrFieldsDisjoint(is32);
    case SectionHeader => ShdrFieldsDisjoint(is32);
    case SymbolEntry => SymFieldsDisjoint(is32);
  }

  ghost predicate ShowsHeader(raw: seq<byte>, e: Elf, host: bool) {
    && HostField(raw, EShoff(e.is32), host) == e.shoff
    && HostField(raw, EShentsize(e.is32), host) == e.shentsize
    && HostField(raw, EShnum(e.is32), host) == e.shnum
    && HostField(raw, EShstrndx(e.is32), host) == e.shstrndx
  }

  ghost predicate ShowsSection(raw: seq<byte>, e: Elf, i: nat, host: bool) {
    && HostField(raw, ShName(e.is32), host) == SectionField(e, i, ShName(e.is32))
    && ShowsSectionBody(raw, SectionAt(e, i), e.is32, host)
  }

  ghost predicate ShowsSectionBody(raw: seq<byte>, s: Section, is32: bool, host: bool) {
    && HostField(raw, ShType(is32), host) == s.kind
    && HostField(raw, ShOffset(is32), host) == s.offset
    && HostField(raw, ShSize(is32), host) == s.size
    && HostField(raw, ShEntsize(is32), host) == s.entsize
  }

  ghost predicate ShowsSymbol(raw: seq<byte>, s: Symbol, is32: bool, host: bool) {
    && |raw| == SymSize(is32)
    && HostField(raw, StValue(is32), host) == s.value
    && HostField(raw, StSize(is32), host) == s.size
    && HostField(raw, StShndx(is32), host) == s.shndx
  }

  lemma SectionFieldsShown(raw: seq<byte>, e: Elf, i: nat, host: bool)
    requires Shows(raw, host, e.src, e.little, SectionPos(e, i), ShdrFields(e.is32))
    ensures ShowsSection(raw, e, i, host)
  {
    UsedFieldsAreSwapped(e.is32);
  }

  lemma SymbolFieldsShown(raw: seq<byte>, e: Elf, t: Tables, i: nat, host: bool)
    requires |raw| == SymSize(e.is32)
    requires Shows(raw, host, e.src, e.little, SymbolPos(t, i), SymFields(e.is32))
    ensures HostField(raw, StName(e.is32), host) == SymbolField(e, t, i, StName(e.is32))
    ensures ShowsSymbol(raw, SymbolAt(e, t, i), e.is32, host)
  {
    UsedFieldsAreSwapped(e.is32);
  }

  lemma HeaderFieldsShown(raw: seq<byte>, src: seq<byte>, is32: bool, little: bool, host: bool)
    requires Shows(raw, host, src, little, 0, EhdrFields(is32))
    ensures ShowsHeader(raw, HeaderOf(src, is32, little), host)
    ensures HostField(raw, EType(is32), host) == FieldAt(src, little, 0, EType(is32))
    ensures HostField(raw, EMachine(is32), host) == FieldAt(src, little, 0, EMachine(is32))
    ensures HostField(raw, EVersion(is32), host) == FieldAt(src, little, 0, EVersion(is32))
  {
    UsedFieldsAreSwapped(is32);
  }

  lemma OpenWithIdent(src: seq<byte>, is32: bool, little: bool)
    requires IdentOk(src)
    requires is32 == (src[EI_CLASS] == ELFCLASS32) && little == (src[EI_DATA] == ELFDATA2LSB)
    ensures Open(src).Some? <==> HeaderAccepted(src, is32, little)
    ensures Open(src).Some? ==> Open(src) == Some(HeaderOf(src, is32, little))
    ensures HeaderAccepted(src, is32, little) ==> Holds(src, 0, EhdrSize(is32))
  {
  }

  /** With positions below 2^63 and products below 2^31, the C arithmetic is exact. */
  lemma SectionSeek(e: Elf, i: nat)
    requires SafePosition(e, i)
    ensures Int64(Int64(e.shoff) + Int32(i * e.shentsize)) == SectionPos(e, i)
  {
  }

  /** The truncated symbol offset survives the check and the seek exactly when it is below 2^31. */
  lemma SymbolSeek(position: nat)
    requires position < 0x1_0000_0000_0000_0000
    ensures UInt64(Int32(position)) == position && Int32(position) >= 0 <==> position < 0x8000_0000
    ensures position < 0x8000_0000 ==> Int32(position) == position
  {
  }

  lemma StringInFile(src: seq<byte>, at: int) returns (text: seq<byte>)
    requires StringFits(src, at)
    ensures text == StringAt(src, at) && |text| < NAME_SIZE && at + |text| < |src|
    ensures forall k | 0 <= k < |text| :: src[at + k] == text[k] && text[k] != 0
    ensures src[at + |text|] == 0
  {
    text := StringAt(src, at);
    var r := CString(src, at);
    assert text == r == src[at..at + |r|];
    forall k | 0 <= k < |r| ensures src[at + k] == r[k] && r[k] != 0 {
      assert r[k] in r;
      assert src[at..at + |r|][k] == src[at + k];
    }
  }

  lemma HostCheck(little: bool)
    ensures Encode(0x01020304, 4, little)[0] == if little then 4 else 1
  {
    assert LittleBytes(0x01020304, 4) == [4, 3, 2, 1] by {
      assert LittleBytes(0x010203, 3) == [3, 2, 1] by {
        assert LittleBytes(0x0102, 2) == [2, 1];
      }
    }
  }

  ghost predicate ShowsDescriptor(raw: seq<byte>, d: Descriptor, host: bool) {
    && |raw| == DEF_SIZE
    && d == DescriptorOf(raw, host)
  }

  /** A text field whose last byte has been set to zero reads as before. */
  lemma TextOfTerminated(s: seq<byte>)
    requires |s| > 0
    ensures Text(s[|s| - 1 := 0]) == Text(s)
  {
    assert s[|s| - 1 := 0][|s| - 1 := 0] == s[|s| - 1 := 0];
  }

  /** The last byte of every text field set to zero, as the program leaves the descriptor. */
  function Terminated(s: seq<byte>): (r: seq<byte>)
    requires |s| == DEF_SIZE
    ensures |r| == DEF_SIZE
  {
    s[63 := 0][103 := 0][135 := 0][155 := 0]
  }

  lemma TerminatedTexts(s: seq<byte>)
    requires |s| == DEF_SIZE
    ensures DescriptorOf(Terminated(s), true) == DescriptorOf(s, true)
    ensures DescriptorOf(Terminated(s), false) == DescriptorOf(s, false)
  {
    hide Text, Decode;
    var r := Terminated(s);
    assert Slice(r, OBJECT_NAME) == Slice(s, OBJECT_NAME)[63 := 0];
    assert Slice(r, TABLE_NAME) == Slice(s, TABLE_NAME)[39 := 0];
    assert Slice(r, DESCRIPTION) == Slice(s, DESCRIPTION)[31 := 0];
    assert Slice(r, TGT_FILENAME) == Slice(s, TGT_FILENAME)[19 := 0];
    assert Slice(r, OBJECT_SIZE) == Slice(s, OBJECT_SIZE);
    TextOfTerminated(Slice(s, OBJECT_NAME));
    TextOfTerminated(Slice(s, TABLE_NAME));
    TextOfTerminated(Slice(s, DESCRIPTION));
    TextOfTerminated(Slice(s, TGT_FILENAME));
  }

  lemma ReadableIsSized(src: seq<byte>, s: Symbol, home: Section)
    ensures DescriptorReadable(src, s, home) ==> DescriptorSized(s)
  {
  }

  lemma DescriptorTexts(raw: seq<byte>, d: Descriptor, host: bool)
    requires ShowsDescriptor(raw, d, host)
    ensures Text(Slice(raw, OBJECT_NAME)) == d.objectName
    ensures HostField(Slice(raw, OBJECT_SIZE), Field(0, 4), host) == d.objectSize
    ensures Text(Slice(raw, TGT_FILENAME)) == d.tgtFilename
  {
    assert Slice(Slice(raw, OBJECT_SIZE), Field(0, 4)) == Slice(raw, OBJECT_SIZE);
  }

  lemma OffsetOfSection(e: Elf, i: nat)
    ensures SectionAt(e, i).offset == SectionField(e, i, ShOffset(e.is32))
  {
  }

  /** A file without section headers has no string table. */
  lemma NoSectionsNoTables(e: Elf)
    ensures e.shnum == 0 ==> TablesOf(e) == NO_TABLES
  {
  }

  /** A record in memory with one field overwritten by a value in host byte order. */
  function SetField(raw: seq<byte>, f: Field, v: nat, host: bool): (r: seq<byte>)
    requires f.Fits(|raw|)
    ensures |r| == |raw|
  {
    raw[..f.at] + Encode(v, f.width, host) + raw[f.at + f.width..]
  }

  lemma SetFieldShows(raw: seq<byte>, f: Field, v: nat, host: bool)
    requires f.Fits(|raw|) && v < Span(f.width)
    ensures HostField(SetField(raw, f, v, host), f, host) == v
  {
    EncodeRoundTrip(v, f.width, host);
    assert Slice(SetField(raw, f, v, host), f) == Encode(v, f.width, host);
  }

  lemma Span4()
    ensures Span(4) == 0x1_0000_0000
  {
  }

  /** On a little-endian host the swap, on a big-endian host nothing, puts a word in network order. */
  lemma WordOut(v: nat, little: bool)
    requires v < 0x1_0000_0000
    ensures (if little then SwapField(Encode(v, 4, little), Field(0, 4)) else Encode(v, 4, little)) == Encode(v, 4, false)
  {
    var s := LittleBytes(v, 4);
    assert SwapField(s, Field(0, 4)) == Reverse(s);
  }

  class Translator {
    /** The open source file, and the position in it. */
    const source: seq<byte>
    var position: nat

    /** The byte order of the machine the program runs on. */
    const hostIsLittle: bool

    const options: Options
    const verbose: bool

    var elfHeader: seq<byte>
    var thisMachineIsLittleEndian: bool
    var targetMachineIsLittleEndian: bool
    var byteSwapRequired: bool
    var targetWordsizeIs32Bit: bool

    var namesOffset: int
    var sectionHeaders: seq<seq<byte>>
    var sectionNames: seq<Option<seq<byte>>>

    var stringTableDataOffset: nat
    var symbolTableDataOffset: int
    var numSymbols: nat
    var symbolTableEntrySize: nat
    var symbols: seq<seq<byte>>
    var symbolNames: seq<seq<byte>>

    var tblDefSymbolIndex: int
    var tblFileDef: seq<byte>
    var userObjSymbolIndex: int
    var tableDataIsAllZeros: bool

    /** The target file: its name, and its contents once it is open. */
    var dstFilename: seq<byte>
    var output: Option<seq<byte>>

    constructor (source: seq<byte>, hostIsLittle: bool, options: Options, verbose: bool)
      ensures this.source == source && this.hostIsLittle == hostIsLittle
      ensures this.options == options && this.verbose == verbose
      ensures Fresh()
    {
      this.source, this.hostIsLittle, this.options, this.verbose := source, hostIsLittle, options, verbose;
      position, elfHeader := 0, [];
      thisMachineIsLittleEndian, targetMachineIsLittleEndian := true, true;
      byteSwapRequired, targetWordsizeIs32Bit := false, true;
      namesOffset, sectionHeaders, sectionNames := 0, [], [];
      stringTableDataOffset, symbolTableDataOffset, numSymbols, symbolTableEntrySize := 0, 0, 0, 0;
      symbols, symbolNames := [], [];
      tblDefSymbolIndex, tblFileDef, userObjSymbolIndex, tableDataIsAllZeros := -1, [], -1, false;
      dstFilename, output := options.directory, None;
    }

    /** The globals have their initial values. */
    ghost predicate Fresh()
      reads this
    {
      && position == 0
      && thisMachineIsLittleEndian && !byteSwapRequired
      && namesOffset == 0
      && CurrentTables() == NO_TABLES
      && tblDefSymbolIndex == -1
      && !tableDataIsAllZeros
      && dstFilename == options.directory
      && output.None?
    }

    function CurrentTables(): Tables
      reads `stringTableDataOffset, `symbolTableDataOffset, `numSymbols, `symbolTableEntrySize
    {
      Tables(stringTableDataOffset, symbolTableDataOffset, numSymbols, symbolTableEntrySize)
    }

    function Get(raw: seq<byte>, f: Field): nat {
      HostField(raw, f, hostIsLittle)
    }

    ghost predicate HeaderLoaded(e: Elf)
      reads `targetWordsizeIs32Bit, `thisMachineIsLittleEndian, `byteSwapRequired, `elfHeader
    {
      && e.src == source
      && targetWordsizeIs32Bit == e.is32
      && thisMachineIsLittleEndian == hostIsLittle
      && byteSwapRequired == (hostIsLittle != e.little)
      && ShowsHeader(elfHeader, e, hostIsLittle)
    }

    // -------------------------------------------------------------------------
    // The source file
    // -------------------------------------------------------------------------

    /** Where a seek leads; one to a negative offset fails and changes nothing. */
    function SeekTarget(offset: int): nat
      reads `position
    {
      if offset >= 0 then offset else position
    }

    method Seek(offset: int) returns (status: int)
      modifies `position
      ensures status == 0 <==> offset >= 0
      ensures position == old(SeekTarget(offset))
    {
      if offset < 0 {
        return -1;
      }
      position := offset;
      return 0;
    }

    /** Reads one item of n bytes into a buffer; 0 items when the file ends before that. */
    method Read(buffer: array<byte>, at: nat, n: nat) returns (items: nat)
      requires at + n <= buffer.Length
      modifies `position, buffer
      ensures items == if old(position) + n <= |source| then 1 else 0
      ensures items == 1 ==> position == old(position) + n
      ensures items == 1 ==>
        buffer[..] == old(buffer[..at]) + source[old(position)..old(position) + n] + old(buffer[at + n..])
    {
      if position + n <= |source| {
        forall i | 0 <= i < n {
          buffer[at + i] := source[position + i];
        }
        assert buffer[at..at + n] == source[position..position + n];
        assert buffer[..] == buffer[..at] + buffer[at..at + n] + buffer[at + n..];
        position := position + n;
        return 1;
      }
      var left := if position < |source| then |source| - position else 0;
      forall i | 0 <= i < left {
        buffer[at + i] := source[position + i];
      }
      position := position + left;
      return 0;
    }

    method GetChar() returns (c: int)
      modifies `position
      ensures c == if old(position) < |source| then source[old(position)] else EOF
      ensures position == if old(position) < |source| then old(position) + 1 else old(position)
    {
      if position < |source| {
        c := source[position];
        position := position + 1;
      } else {
        c := EOF;
      }
    }

    /** Reads the string at the current position into the name buffer. */
    method ReadString() returns (s: seq<byte>)
      requires StringFits(source, position)
      modifies `position
      ensures s == StringAt(source, old(position))
    {
      ghost var start := position;
      ghost var text := StringInFile(source, start);
      var buffer := new byte[NAME_SIZE](_ => 0);
      var i := 0;
      var c := GetChar();
      while c != 0
        invariant 0 <= i <= |text|
        invariant position == start + i + 1
        invariant c == source[start + i]
        invariant buffer[..i] == text[..i]
        decreases |text| - i
      {
        buffer[i] := c;
        i := i + 1;
        c := GetChar();
      }
      return buffer[..i];
    }

    // -------------------------------------------------------------------------
    // File header
    // -------------------------------------------------------------------------

    method CheckHost() returns (ok: bool)
      requires thisMachineIsLittleEndian
      modifies `thisMachineIsLittleEndian
      ensures ok && thisMachineIsLittleEndian == hostIsLittle
    {
      var check := Encode(0x01020304, 4, hostIsLittle);
      HostCheck(hostIsLittle);
      if check[0] == 0x01 {
        thisMachineIsLittleEndian := false;
      } else if check[0] != 0x04 {
        return false;
      }
      return true;
    }

    /** Reads e_ident and sets the class, the byte order and the need to swap. */
    method ReadIdent() returns (ok: bool, ident: array<byte>)
      requires position == 0 && !byteSwapRequired && thisMachineIsLittleEndian == hostIsLittle
      modifies `position, `targetWordsizeIs32Bit, `targetMachineIsLittleEndian, `byteSwapRequired
      ensures fresh(ident) && ident.Length == EI_NIDENT
      ensures ok <==> IdentOk(source)
      ensures ok ==> position == EI_NIDENT && ident[..] == source[..EI_NIDENT]
      ensures ok ==> targetWordsizeIs32Bit == (source[EI_CLASS] == ELFCLASS32)
      ensures ok ==> byteSwapRequired == (hostIsLittle != (source[EI_DATA] == ELFDATA2LSB))
    {
      ident := new byte[EI_NIDENT](_ => 0);
      var items := Read(ident, 0, EI_NIDENT);
      if items != 1 {
        return false, ident;
      }
      assert ident[..] == source[..EI_NIDENT];
      assert forall i | 0 <= i < EI_NIDENT :: ident[i] == source[i];
      if ident[0] != MAGIC[0] || ident[1] != MAGIC[1] || ident[2] != MAGIC[2] || ident[3] != MAGIC[3] {
        assert source[..4][0] == source[0] && source[..4][1] == source[1];
        assert source[..4][2] == source[2] && source[..4][3] == source[3];
        return false, ident;
      }
      assert source[..4] == MAGIC;
      if ident[EI_CLASS] == ELFCLASS32 {
        targetWordsizeIs32Bit := true;
      } else if ident[EI_CLASS] == ELFCLASS64 {
        targetWordsizeIs32Bit := false;
      } else {
        return false, ident;
      }
      if ident[EI_DATA] == ELFDATA2LSB {
        targetMachineIsLittleEndian := true;
        if !thisMachineIsLittleEndian {
          byteSwapRequired := true;
        }
      } else if ident[EI_DATA] == ELFDATA2MSB {
        targetMachineIsLittleEndian := false;
        if thisMachineIsLittleEndian {
          byteSwapRequired := true;
        }
      } else {
        return false, ident;
      }
      return ident[EI_VERSION] == EV_CURRENT, ident;
    }

    /** Swaps a record in place when the byte orders of host and file differ. */
    method SwapIfRequired(buffer: array<byte>, kind: Record)
      requires buffer.Length == kind.Size(targetWordsizeIs32Bit)
      modifies buffer
      ensures FieldsFit(kind.Fields(targetWordsizeIs32Bit), buffer.Length)
      ensures buffer[..] == HostForm(old(buffer[..]), kind.Fields(targetWordsizeIs32Bit), byteSwapRequired)
    {
      RecordFields(kind, targetWordsizeIs32Bit);
      if byteSwapRequired {
        match kind
        case FileHeader => SwapElfHeader(buffer, targetWordsizeIs32Bit);
        case SectionHeader => SwapSectionHeader(buffer, targetWordsizeIs32Bit);
        case SymbolEntry => SwapSymbol(buffer, targetWordsizeIs32Bit);
      }
    }

    /** Reads the rest of the file header after e_ident. */
    method ReadRestOfHeader(ident: array<byte>, ghost little: bool) returns (ok: bool)
      requires position == EI_NIDENT == ident.Length && |source| >= EI_NIDENT
      requires ident[..] == source[..EI_NIDENT] && byteSwapRequired == (hostIsLittle != little)
      modifies `position, `elfHeader
      ensures ok <==> Holds(source, 0, EhdrSize(targetWordsizeIs32Bit))
      ensures ok ==> Shows(elfHeader, hostIsLittle, source, little, 0, EhdrFields(targetWordsizeIs32Bit))
    {
      hide FieldAt, HostField, Decode;
      var size := FileHeader.Size(targetWordsizeIs32Bit);
      var header := new byte[size](_ => 0);
      forall i | 0 <= i < EI_NIDENT {
        header[i] := ident[i];
      }
      assert header[..EI_NIDENT] == ident[..];
      var items := Read(header, EI_NIDENT, size - EI_NIDENT);
      if items != 1 {
        return false;
      }
      assert header[..] == source[..EI_NIDENT] + source[EI_NIDENT..size] == source[0..size];
      SwapIfRequired(header, FileHeader);
      elfHeader := header[..];
      RecordFields(FileHeader, targetWordsizeIs32Bit);
      LoadedRecord(source, little, hostIsLittle, 0, size, EhdrFields(targetWordsizeIs32Bit));
      return true;
    }

    /** Checks the type, the machine and the version. */
    method CheckHeader(ghost little: bool) returns (ok: bool)
      requires Holds(source, 0, EhdrSize(targetWordsizeIs32Bit))
      requires Shows(elfHeader, hostIsLittle, source, little, 0, EhdrFields(targetWordsizeIs32Bit))
      ensures ok <==> HeaderAccepted(source, targetWordsizeIs32Bit, little)
    {
      HeaderFieldsShown(elfHeader, source, targetWordsizeIs32Bit, little, hostIsLittle);
      ok := GetStringFromMap(KNOWN_TYPES, Get(elfHeader, EType(targetWordsizeIs32Bit)));
      if !ok {
        return;
      }
      ok := GetStringFromMap(KNOWN_MACHINES, Get(elfHeader, EMachine(targetWordsizeIs32Bit)));
      if !ok {
        return;
      }
      ok := Get(elfHeader, EVersion(targetWordsizeIs32Bit)) == EV_CURRENT;
    }

    method GetElfHeader() returns (ok: bool, ghost e: Elf)
      requires Fresh()
      modifies `position, `elfHeader, `thisMachineIsLittleEndian, `targetMachineIsLittleEndian,
               `byteSwapRequired, `targetWordsizeIs32Bit
      ensures ok <==> Open(source).Some?
      ensures ok ==> Open(source) == Some(e) && HeaderLoaded(e)
    {
      hide FieldAt, HostField, HeaderAccepted;
      e := HeaderOf(source, true, true);
      ok := CheckHost();
      var ident: array<byte>;
      ok, ident := ReadIdent();
      if !ok {
        return;
      }
      ghost var little := source[EI_DATA] == ELFDATA2LSB;
      OpenWithIdent(source, targetWordsizeIs32Bit, little);
      ok := ReadRestOfHeader(ident, little);
      if !ok {
        return;
      }
      ok := CheckHeader(little);
      HeaderFieldsShown(elfHeader, source, targetWordsizeIs32Bit, little, hostIsLittle);
      e := HeaderOf(source, targetWordsizeIs32Bit, little);
    }

    /** Reads a record at the current position and swaps it if needed. */
    method ReadRecord(kind: Record, ghost little: bool) returns (ok: bool, raw: seq<byte>)
      requires byteSwapRequired == (hostIsLittle != little)
      modifies `position
      ensures ok <==> Holds(source, old(position), kind.Size(targetWordsizeIs32Bit))
      ensures ok ==> |raw| == kind.Size(targetWordsizeIs32Bit)
      ensures ok ==> position == old(position) + |raw|
      ensures ok ==>
        Shows(raw, hostIsLittle, source, little, old(position), kind.Fields(targetWordsizeIs32Bit))
    {
      hide FieldAt, HostField, Decode;
      ghost var start := position;
      var size := kind.Size(targetWordsizeIs32Bit);
      var buffer := new byte[size](_ => 0);
      var items := Read(buffer, 0, size);
      if items != 1 {
        return false, [];
      }
      assert buffer[..] == source[start..start + size];
      SwapIfRequired(buffer, kind);
      RecordFields(kind, targetWordsizeIs32Bit);
      LoadedRecord(source, little, hostIsLittle, start, size, kind.Fields(targetWordsizeIs32Bit));
      return true, buffer[..];
    }

    // -------------------------------------------------------------------------
    // Section headers
    // -------------------------------------------------------------------------

    method ReadSectionHeader(index: nat, ghost e: Elf) returns (ok: bool, header: seq<byte>)
      requires HeaderLoaded(e) && SafePosition(e, index)
      modifies `position
      ensures ok <==> SectionReadable(e, index)
      ensures ok ==> ShowsSection(header, e, index, hostIsLittle)
      ensures ok ==> position == SectionPos(e, index) + ShdrSize(e.is32)
    {
      hide FieldAt, HostField, Int64, Int32;
      var seekOffset := Int64(Get(elfHeader, EShoff(targetWordsizeIs32Bit)));
      var shentsize := Get(elfHeader, EShentsize(targetWordsizeIs32Bit));
      SectionSeek(e, index);
      if index > 0 {
        seekOffset := Int64(seekOffset + Int32(index * shentsize));
      }
      assert seekOffset == SectionPos(e, index);
      var status := Seek(seekOffset);
      if status != 0 {
        return false, [];
      }
      ok, header := ReadRecord(SectionHeader, e.little);
      if ok {
        SectionFieldsShown(header, e, index, hostIsLittle);
      }
    }

    /** What a named section header says of the string table and the symbol table. */
    method NoteTables(header: seq<byte>, name: seq<byte>, isNames: bool, ghost s: Section)
      requires ShowsSectionBody(header, s, targetWordsizeIs32Bit, hostIsLittle) && s.name == Some(name)
      modifies `stringTableDataOffset, `symbolTableDataOffset, `symbolTableEntrySize, `numSymbols
      ensures CurrentTables() == NoteSection(old(CurrentTables()), s, isNames, targetWordsizeIs32Bit)
    {
      hide HostField, Int32, UInt64;
      var is32 := targetWordsizeIs32Bit;
      var kind, offset := Get(header, ShType(is32)), Get(header, ShOffset(is32));
      if kind == SHT_SYMTAB {
        symbolTableDataOffset := Int32(offset + SymSize(is32));
        symbolTableEntrySize := Get(header, ShEntsize(is32));
        if symbolTableEntrySize == 0 {
          numSymbols := 0;
        } else {
          numSymbols := UInt64(Get(header, ShSize(is32)) / symbolTableEntrySize - 1);
        }
      } else if kind == SHT_STRTAB {
        if name == STRTAB_NAME || (stringTableDataOffset == 0 && !isNames) {
          stringTableDataOffset := offset;
        }
      }
    }

    /** Reads the name of a section and notes what its header says. */
    method NameSection(index: nat, header: seq<byte>, isNames: bool, ghost s: Section)
      requires index < |sectionNames|
      requires ShowsSectionBody(header, s, targetWordsizeIs32Bit, hostIsLittle)
      requires StringFits(source, SeekTarget(namesOffset + Get(header, ShName(targetWordsizeIs32Bit))))
      requires s.name == Some(StringAt(source, SeekTarget(namesOffset + Get(header, ShName(targetWordsizeIs32Bit)))))
      modifies `position, `sectionNames, `stringTableDataOffset, `symbolTableDataOffset,
               `symbolTableEntrySize, `numSymbols
      ensures sectionNames == old(sectionNames)[index := s.name]
      ensures CurrentTables() == NoteSection(old(CurrentTables()), s, isNames, targetWordsizeIs32Bit)
    {
      var status := Seek(namesOffset + Get(header, ShName(targetWordsizeIs32Bit)));
      var name := ReadString();
      sectionNames := sectionNames[index := Some(name)];
      NoteTables(header, name, isNames, s);
    }

    /** Reads one section header; once the section names are known, also its name and what it says of the tables. */
    method GetSectionHeader(index: nat, ghost e: Elf) returns (ok: bool, header: seq<byte>)
      requires HeaderLoaded(e) && SafePosition(e, index)
      requires namesOffset != 0 ==> namesOffset == NamesAt(e) && index < |sectionNames|
      requires namesOffset != 0 && SectionReadable(e, index) && HasName(e, index)
        ==> StringFits(e.src, NamePos(e, index))
      modifies `position, `sectionNames, `stringTableDataOffset, `symbolTableDataOffset,
               `symbolTableEntrySize, `numSymbols
      ensures ok <==> SectionReadable(e, index)
      ensures ok ==> ShowsSection(header, e, index, hostIsLittle)
      ensures namesOffset == 0 ==> sectionNames == old(sectionNames) && CurrentTables() == old(CurrentTables())
      ensures ok && namesOffset != 0 ==>
        && sectionNames == (if HasName(e, index) then old(sectionNames)[index := SectionAt(e, index).name]
                            else old(sectionNames))
        && CurrentTables() == NoteSection(old(CurrentTables()), SectionAt(e, index), index == e.shstrndx, e.is32)
    {
      hide FieldAt, HostField, StringAt, SectionReadable, ScanSections;
      ok, header := ReadSectionHeader(index, e);
      if !ok {
        return;
      }
      ghost var s := SectionAt(e, index);
      var nameIndex := Get(header, ShName(targetWordsizeIs32Bit));
      assert s.name == if HasName(e, index) then Some(StringAt(source, NamePos(e, index))) else None;
      assert HasName(e, index) <==> NamesAt(e) != 0 && nameIndex != 0;
      if namesOffset != 0 && nameIndex != 0 {
        var isNames := index == Get(elfHeader, EShstrndx(targetWordsizeIs32Bit));
        NameSection(index, header, isNames, s);
      }
    }

    // -------------------------------------------------------------------------
    // Symbols
    // -------------------------------------------------------------------------

    method ReadSymbol(index: nat, ghost e: Elf, ghost t: Tables) returns (ok: bool, symbol: seq<byte>)
      requires HeaderLoaded(e) && CurrentTables() == t
      modifies `position
      ensures ok <==> SymbolReadable(e, t, index)
      ensures ok ==> Get(symbol, StName(e.is32)) == SymbolField(e, t, index, StName(e.is32))
      ensures ok ==> ShowsSymbol(symbol, SymbolAt(e, t, index), e.is32, hostIsLittle)
      ensures ok ==> position == SymbolPos(t, index) + SymSize(e.is32)
    {
      var calculatedOffset := UInt64(symbolTableDataOffset + index * symbolTableEntrySize);
      var seekOffset := Int32(calculatedOffset);
      SymbolSeek(calculatedOffset);
      if UInt64(seekOffset) != calculatedOffset {
        return false, [];
      }
      var status := Seek(seekOffset);
      if status != 0 {
        return false, [];
      }
      assert position == SymbolPos(t, index);
      ok, symbol := ReadRecord(SymbolEntry, e.little);
      if ok {
        SymbolFieldsShown(symbol, e, t, index, hostIsLittle);
      }
    }

    /** Reads the name of a symbol, and notes when it names the descriptor. */
    method NameSymbol(index: nat, at: int)
      requires index < |symbolNames| && StringFits(source, SeekTarget(at))
      modifies `position, `symbolNames, `tblDefSymbolIndex
      ensures symbolNames == old(symbolNames)[index := StringAt(source, old(SeekTarget(at)))]
      ensures tblDefSymbolIndex ==
        if NamesDescriptor(StringAt(source, old(SeekTarget(at)))) then index else old(tblDefSymbolIndex)
    {
      var status := Seek(at);
      var name := ReadString();
      symbolNames := symbolNames[index := name];
      if name == DEF_NAME || (|name| > 0 && name[1..] == DEF_NAME) {
        tblDefSymbolIndex := index;
      }
    }

    /** Reads one symbol and its name, and notes when it names the descriptor. */
    method GetSymbol(index: nat, ghost e: Elf, ghost t: Tables) returns (ok: bool, symbol: seq<byte>)
      requires HeaderLoaded(e) && CurrentTables() == t && index < |symbolNames|
      requires SymbolReadable(e, t, index) ==> StringFits(e.src, SymbolNamePos(e, t, index))
      modifies `position, `symbolNames, `tblDefSymbolIndex
      ensures ok <==> SymbolReadable(e, t, index)
      ensures ok ==> ShowsSymbol(symbol, SymbolAt(e, t, index), e.is32, hostIsLittle)
      ensures ok ==> symbolNames == old(symbolNames)[index := SymbolAt(e, t, index).name]
      ensures ok ==> (tblDefSymbolIndex ==
                      if NamesDescriptor(SymbolAt(e, t, index).name) then index else old(tblDefSymbolIndex))
    {
      hide FieldAt, HostField, SymbolReadable, SymbolPos, StringAt, StringFits, Int32, NamesDescriptor;
      ok, symbol := ReadSymbol(index, e, t);
      if !ok {
        return;
      }
      var at := Int32(stringTableDataOffset + Get(symbol, StName(targetWordsizeIs32Bit)));
      assert SeekTarget(at) == SymbolNamePos(e, t, index);
      NameSymbol(index, at);
    }

    // -------------------------------------------------------------------------
    // The passes over sections and symbols
    // -------------------------------------------------------------------------

    ghost predicate SectionsShown(s: seq<Section>, n: nat)
      reads `sectionHeaders, `sectionNames, `targetWordsizeIs32Bit
      requires n <= |s|
    {
      && |sectionHeaders| == |sectionNames| == |s|
      && forall i | 0 <= i < n ::
           && ShowsSectionBody(sectionHeaders[i], s[i], targetWordsizeIs32Bit, hostIsLittle)
           && sectionNames[i] == s[i].name
    }

    ghost predicate SymbolsShown(y: seq<Symbol>, n: nat)
      reads `symbols, `symbolNames, `targetWordsizeIs32Bit
      requires n <= |y|
    {
      && |symbols| == |symbolNames| == |y|
      && forall i | 0 <= i < n ::
           && ShowsSymbol(symbols[i], y[i], targetWordsizeIs32Bit, hostIsLittle)
           && symbolNames[i] == y[i].name
    }

    /** Reads the section header of one index into its place. */
    method StoreSection(i: nat, ghost e: Elf, ghost s: Section) returns (ok: bool)
      requires HeaderLoaded(e) && i < e.shnum && i < |sectionHeaders| && i < |sectionNames| && sectionNames[i] == None
      requires SafeSection(e, i) && namesOffset == NamesAt(e)
      requires s == SectionAt(e, i)
      modifies `position, `sectionHeaders, `sectionNames, `stringTableDataOffset, `symbolTableDataOffset,
               `symbolTableEntrySize, `numSymbols
      ensures ok <==> SectionReadable(e, i)
      ensures ok ==> |sectionHeaders| == |old(sectionHeaders)| && sectionNames == old(sectionNames)[i := s.name]
      ensures ok ==> sectionHeaders == old(sectionHeaders)[i := sectionHeaders[i]]
      ensures ok ==> ShowsSectionBody(sectionHeaders[i], s, targetWordsizeIs32Bit, hostIsLittle)
      ensures ok ==> CurrentTables() == NoteSection(old(CurrentTables()), s, i == e.shstrndx, e.is32)
    {
      hide FieldAt, HostField, SectionReadable, StringAt, SectionField;
      var header: seq<byte>;
      ok, header := GetSectionHeader(i, e);
      if ok {
        sectionHeaders := sectionHeaders[i := header];
      }
    }

    /** The first n section headers have been read. */
    ghost predicate SectionPass(e: Elf, s: seq<Section>, n: nat)
      reads this
    {
      && n <= |s| == e.shnum
      && HeaderLoaded(e)
      && namesOffset == NamesAt(e)
      && SectionsShown(s, n)
      && (forall j | n <= j < |s| :: sectionNames[j] == None)
      && CurrentTables() == ScanSections(s[..n], e.shstrndx, e.is32)
    }

    method NextSection(i: nat, ghost e: Elf, ghost s: seq<Section>) returns (ok: bool)
      requires SectionPass(e, s, i) && i < |s| && s[i] == SectionAt(e, i)
      requires SafeSection(e, i)
      modifies `position, `sectionHeaders, `sectionNames, `stringTableDataOffset, `symbolTableDataOffset,
               `symbolTableEntrySize, `numSymbols
      ensures ok <==> SectionReadable(e, i)
      ensures ok ==> SectionPass(e, s, i + 1)
    {
      hide FieldAt, HostField, SectionReadable, StringAt, SectionField;
      ok := StoreSection(i, e, s[i]);
      assert s[..i + 1][..i] == s[..i];
    }

    /** Makes room for the section headers and their names. */
    method AllocateSectionHeaders(ghost e: Elf, ghost s: seq<Section>) returns (shnum: nat)
      requires HeaderLoaded(e) && namesOffset == NamesAt(e) && CurrentTables() == NO_TABLES && |s| == e.shnum
      modifies `sectionHeaders, `sectionNames
      ensures shnum == e.shnum && SectionPass(e, s, 0)
    {
      hide FieldAt, HostField;
      shnum := Get(elfHeader, EShnum(targetWordsizeIs32Bit));
      sectionHeaders := seq(shnum, _ => []);
      sectionNames := seq(shnum, _ => None);
    }

    method ReadSections(ghost e: Elf, ghost s: seq<Section>) returns (ok: bool)
      requires HeaderLoaded(e) && SafeSections(e)
      requires namesOffset == NamesAt(e) && CurrentTables() == NO_TABLES
      requires |s| == e.shnum && forall i | 0 <= i < |s| :: s[i] == SectionAt(e, i)
      modifies `position, `sectionHeaders, `sectionNames, `stringTableDataOffset, `symbolTableDataOffset,
               `symbolTableEntrySize, `numSymbols
      ensures ok <==> SectionsReadTo(e, e.shnum)
      ensures ok ==> SectionPass(e, s, |s|)
    {
      hide FieldAt, HostField, SectionReadable, SectionAt, SectionPass, SafeSection;
      var shnum := AllocateSectionHeaders(e, s);
      var i := 0;
      while i < shnum
        invariant 0 <= i <= shnum == |s|
        invariant SectionsReadTo(e, i)
        invariant SectionPass(e, s, i)
      {
        ok := NextSection(i, e, s);
        if !ok {
          return;
        }
        i := i + 1;
      }
      ok := true;
    }

    /** Reads the symbol of one index into its place. */
    method StoreSymbol(i: nat, ghost e: Elf, ghost t: Tables, ghost y: Symbol) returns (ok: bool)
      requires HeaderLoaded(e) && CurrentTables() == t && i < t.count && i < |symbols| && i < |symbolNames|
      requires SafeSymbol(e, t, i) && y == SymbolAt(e, t, i)
      modifies `position, `symbols, `symbolNames, `tblDefSymbolIndex
      ensures ok <==> SymbolReadable(e, t, i)
      ensures ok ==> |symbols| == |old(symbols)| && symbolNames == old(symbolNames)[i := y.name]
      ensures ok ==> symbols == old(symbols)[i := symbols[i]]
      ensures ok ==> ShowsSymbol(symbols[i], y, targetWordsizeIs32Bit, hostIsLittle)
      ensures ok ==> (tblDefSymbolIndex == if NamesDescriptor(y.name) then i else old(tblDefSymbolIndex))
    {
      hide FieldAt, HostField, SymbolReadable, SymbolAt;
      var symbol: seq<byte>;
      ok, symbol := GetSymbol(i, e, t);
      if ok {
        symbols := symbols[i := symbol];
      }
    }

    /** The first n symbols have been read. */
    ghost predicate SymbolPass(e: Elf, t: Tables, y: seq<Symbol>, n: nat)
      reads this
    {
      && n <= |y| == t.count
      && HeaderLoaded(e)
      && CurrentTables() == t
      && SymbolsShown(y, n)
      && tblDefSymbolIndex == LastDescriptor(y[..n])
    }

    method NextSymbol(i: nat, ghost e: Elf, ghost t: Tables, ghost y: seq<Symbol>) returns (ok: bool)
      requires SymbolPass(e, t, y, i) && i < |y| && y[i] == SymbolAt(e, t, i) && SafeSymbol(e, t, i)
      modifies `position, `symbols, `symbolNames, `tblDefSymbolIndex
      ensures ok <==> SymbolReadable(e, t, i)
      ensures ok ==> SymbolPass(e, t, y, i + 1) && numSymbols == |y|
    {
      hide FieldAt, HostField, SymbolReadable, SymbolAt, ShowsSymbol, NamesDescriptor, SafeSymbol, ShowsHeader;
      ok := StoreSymbol(i, e, t, y[i]);
      assert y[..i + 1][..i] == y[..i];
    }

    /** Makes room for the symbols and their names. */
    method AllocateSymbols(ghost e: Elf, ghost t: Tables, ghost y: seq<Symbol>)
      requires HeaderLoaded(e) && CurrentTables() == t && |y| == t.count && tblDefSymbolIndex == -1
      modifies `symbols, `symbolNames
      ensures SymbolPass(e, t, y, 0) && numSymbols == |y|
    {
      hide FieldAt, HostField;
      symbols := seq(numSymbols, _ => []);
      symbolNames := seq(numSymbols, _ => []);
    }

    method ReadSymbols(ghost e: Elf, ghost t: Tables, ghost y: seq<Symbol>) returns (ok: bool)
      requires HeaderLoaded(e) && CurrentTables() == t && SafeSymbols(e, t)
      requires tblDefSymbolIndex == -1
      requires |y| == t.count && forall i | 0 <= i < |y| :: y[i] == SymbolAt(e, t, i)
      modifies `position, `symbols, `symbolNames, `tblDefSymbolIndex
      ensures ok <==> SymbolsReadTo(e, t, t.count)
      ensures ok ==> SymbolPass(e, t, y, |y|)
    {
      hide FieldAt, HostField, SymbolReadable, SymbolAt, SymbolPass, SafeSymbol;
      AllocateSymbols(e, t, y);
      var i := 0;
      while i < numSymbols
        invariant 0 <= i <= numSymbols == |y|
        invariant SymbolsReadTo(e, t, i)
        invariant SymbolPass(e, t, y, i)
      {
        ok := NextSymbol(i, e, t, y);
        if !ok {
          return;
        }
        i := i + 1;
      }
      ok := true;
    }

    // -------------------------------------------------------------------------
    // The table descriptor
    // -------------------------------------------------------------------------

    /** The offset of a symbol's object in 64-bit arithmetic. */
    function CalculatedOffset(symbol: seq<byte>, section: seq<byte>): nat
      reads `targetWordsizeIs32Bit
    {
      UInt64(Get(section, ShOffset(targetWordsizeIs32Bit)) + Get(symbol, StValue(targetWordsizeIs32Bit)))
    }

    /** Reads the descriptor, terminates its texts, and swaps its size if needed. */
    method ReadDescriptor(ghost little: bool) returns (items: nat)
      requires byteSwapRequired == (hostIsLittle != little)
      modifies `position, `tblFileDef
      ensures items == 1 <==> Holds(source, old(position), DEF_SIZE)
      ensures items == 1 ==>
        ShowsDescriptor(tblFileDef, DescriptorOf(source[old(position)..old(position) + DEF_SIZE], little), hostIsLittle)
    {
      hide Decode, Text;
      ghost var start := position;
      var buffer := new byte[DEF_SIZE](_ => 0);
      items := Read(buffer, 0, DEF_SIZE);
      ghost var raw := buffer[..];
      assert items == 1 ==> raw == source[start..start + DEF_SIZE];
      buffer[63] := 0;
      buffer[103] := 0;
      buffer[135] := 0;
      buffer[155] := 0;
      assert buffer[..] == Terminated(raw);
      TerminatedTexts(raw);
      SwappedDescriptor(Terminated(raw), hostIsLittle);
      if byteSwapRequired {
        SwapUInt32(buffer, OBJECT_SIZE.at);
      }
      tblFileDef := buffer[..];
    }

    method GetTblDefInfo(ghost little: bool, ghost y: Symbol, ghost home: Section) returns (ok: bool)
      requires byteSwapRequired == (hostIsLittle != little)
      requires 0 <= tblDefSymbolIndex < |symbols|
      requires ShowsSymbol(symbols[tblDefSymbolIndex], y, targetWordsizeIs32Bit, hostIsLittle)
      requires DescriptorSized(y) ==>
        && y.shndx < |sectionHeaders|
        && ShowsSectionBody(sectionHeaders[y.shndx], home, targetWordsizeIs32Bit, hostIsLittle)
      modifies `position, `tblFileDef
      ensures ok <==> DescriptorReadable(source, y, home)
      ensures ok ==> ShowsDescriptor(tblFileDef, DescriptorAt(source, little, y, home), hostIsLittle)
    {
      hide HostField, DescriptorOf;
      var symbol := symbols[tblDefSymbolIndex];
      var size := Get(symbol, StSize(targetWordsizeIs32Bit));
      if size != DEF_SIZE && size != 0 {
        return false;
      }
      ok := true;
      var section := sectionHeaders[Get(symbol, StShndx(targetWordsizeIs32Bit))];
      var calculatedOffset := CalculatedOffset(symbol, section);
      assert calculatedOffset == ObjectPos(y, home);
      var seekOffset := UInt32(calculatedOffset);
      if seekOffset != calculatedOffset {
        ok := false;
      }
      var status := Seek(seekOffset);
      var items := ReadDescriptor(little);
      if items != 1 {
        ok := false;
      }
    }

    // -------------------------------------------------------------------------
    // The user object
    // -------------------------------------------------------------------------

    function ObjectName(): seq<byte>
      reads `tblFileDef
      requires |tblFileDef| == DEF_SIZE
    {
      Text(Slice(tblFileDef, OBJECT_NAME))
    }

    function ObjectSize(): nat
      reads `tblFileDef
      requires |tblFileDef| == DEF_SIZE
    {
      Get(Slice(tblFileDef, OBJECT_SIZE), Field(0, 4))
    }

    /** The first symbol that names the object, or the number of symbols. */
    method FindObject(ghost y: seq<Symbol>) returns (i: nat)
      requires SymbolsShown(y, |y|) && numSymbols == |y| && |tblFileDef| == DEF_SIZE
      ensures i == FirstObject(y, ObjectName(), 0)
    {
      var objectName := ObjectName();
      i := 0;
      while i < numSymbols
        invariant 0 <= i <= |y|
        invariant FirstObject(y, objectName, i) == FirstObject(y, objectName, 0)
      {
        var name := symbolNames[i];
        if |objectName| <= |name| && name[..|objectName|] == objectName {
          if |name| - |objectName| == 1 {
            break;
          } else if |name| - |objectName| == 0 {
            break;
          }
        }
        i := i + 1;
      }
    }

    /** Prints the object's bytes, which moves the file position. */
    method DumpObject(size: nat)
      modifies `position
    {
      var i := 0;
      while i < size {
        var aByte := GetChar();
        i := i + 1;
      }
    }

    /** Settles the size of a stored object in the symbol's record. */
    method ReconcileSize(u: nat, ghost size: nat)
      requires u < |symbols| && |tblFileDef| == DEF_SIZE
      requires |symbols[u]| == SymSize(targetWordsizeIs32Bit)
      requires Get(symbols[u], StSize(targetWordsizeIs32Bit)) == size
      modifies `symbols
      ensures |symbols| == |old(symbols)|
      ensures Get(symbols[u], StSize(targetWordsizeIs32Bit)) == StoredSize(size, ObjectSize())
    {
      var f := StSize(targetWordsizeIs32Bit);
      Span4();
      SetFieldShows(symbols[u], f, ObjectSize(), hostIsLittle);
      if Get(symbols[u], f) != 0 {
        if Get(symbols[u], f) != ObjectSize() {
          if ObjectSize() < Get(symbols[u], f) {
            symbols := symbols[u := SetField(symbols[u], f, ObjectSize(), hostIsLittle)];
          }
        }
      } else {
        symbols := symbols[u := SetField(symbols[u], f, ObjectSize(), hostIsLittle)];
      }
    }

    /** Seeks to a stored object and settles its size. */
    method SeekToObject(u: nat, ghost y: Symbol, ghost home: Section) returns (ok: bool)
      requires u < |symbols| && y.shndx < |sectionHeaders| && |tblFileDef| == DEF_SIZE
      requires ShowsSymbol(symbols[u], y, targetWordsizeIs32Bit, hostIsLittle)
      requires ShowsSectionBody(sectionHeaders[y.shndx], home, targetWordsizeIs32Bit, hostIsLittle)
      modifies `position, `symbols
      ensures |symbols| == |old(symbols)|
      ensures ok <==> ObjectPos(y, home) < 0x1_0000_0000
      ensures ok ==> position == ObjectPos(y, home)
      ensures Get(symbols[u], StSize(targetWordsizeIs32Bit)) == StoredSize(y.size, ObjectSize())
    {
      hide HostField;
      ok := true;
      var section := sectionHeaders[Get(symbols[u], StShndx(targetWordsizeIs32Bit))];
      var calculatedOffset := CalculatedOffset(symbols[u], section);
      assert calculatedOffset == ObjectPos(y, home);
      var seekOffset := UInt32(calculatedOffset);
      if seekOffset != calculatedOffset {
        ok := false;
      }
      var status := Seek(seekOffset);
      ReconcileSize(u, y.size);
      if verbose {
        DumpObject(Get(symbols[u], StSize(targetWordsizeIs32Bit)));
        status := Seek(seekOffset);
      }
    }

    /** Finds the user object; a stored one is left ready to be copied. */
    method LocateAndReadUserObject(ghost s: seq<Section>, ghost y: seq<Symbol>, ghost u: nat) returns (ok: bool)
      requires SectionsShown(s, |s|) && SymbolsShown(y, |y|) && numSymbols == |y|
      requires |tblFileDef| == DEF_SIZE && !tableDataIsAllZeros
      requires u == FirstObject(y, ObjectName(), 0)
      requires u < |y| ==> SafeObject(s, y[u], ObjectSize())
      modifies `position, `symbols, `userObjSymbolIndex, `tableDataIsAllZeros
      ensures |symbols| == |old(symbols)|
      ensures ok <==>
        && u < |y|
        && (s[y[u].shndx].name == Some(BSS_NAME) || ObjectPos(y[u], s[y[u].shndx]) < 0x1_0000_0000)
      ensures ok ==> userObjSymbolIndex == u && tableDataIsAllZeros == (s[y[u].shndx].name == Some(BSS_NAME))
      ensures ok && tableDataIsAllZeros ==> Get(symbols[u], StSize(targetWordsizeIs32Bit)) == y[u].size
      ensures ok && !tableDataIsAllZeros ==>
        && Get(symbols[u], StSize(targetWordsizeIs32Bit)) == StoredSize(y[u].size, ObjectSize())
        && position == ObjectPos(y[u], s[y[u].shndx])
    {
      hide HostField, FirstObject;
      var i := FindObject(y);
      if i == numSymbols {
        return false;
      }
      userObjSymbolIndex := i;
      var shndx := Get(symbols[i], StShndx(targetWordsizeIs32Bit));
      assert shndx == y[i].shndx;
      if sectionNames[shndx] == Some(BSS_NAME) {
        tableDataIsAllZeros := true;
        return true;
      }
      ok := SeekToObject(i, y[i], s[shndx]);
    }

    // -------------------------------------------------------------------------
    // The target file
    // -------------------------------------------------------------------------

    method Write(bytes: seq<byte>)
      requires output.Some?
      modifies `output
      ensures output == Some(old(output).value + bytes)
    {
      output := Some(output.value + bytes);
    }

    /** Writes a 32-bit header field, which a little-endian machine swaps first. */
    method WriteWord(v: int)
      requires output.Some? && thisMachineIsLittleEndian == hostIsLittle
      modifies `output
      ensures output == Some(old(output).value + Big32(v))
    {
      var memory := Encode(UInt32(v), 4, hostIsLittle);
      var word := new byte[4](i requires 0 <= i < 4 => memory[i]);
      assert word[..] == memory;
      WordOut(UInt32(v), hostIsLittle);
      if thisMachineIsLittleEndian {
        SwapUInt32(word, 0);
      }
      Write(word[..]);
    }

    /** Writes a text field: cleared, then filled with the text. */
    method WriteText(text: seq<byte>, size: nat)
      requires output.Some? && |text| <= size
      modifies `output
      ensures output == Some(old(output).value + Padded(text, size))
    {
      var field := new byte[size](_ => 0);
      forall i | 0 <= i < |text| {
        field[i] := text[i];
      }
      assert field[..] == Padded(text, size);
      Write(field[..]);
    }

    method WriteHeaders(numBytes: nat, ghost d: Descriptor)
      requires output == Some([]) && thisMachineIsLittleEndian == hostIsLittle && options.Valid()
      requires ShowsDescriptor(tblFileDef, d, hostIsLittle)
      modifies `output
      ensures output == Some(Headers(options, d, numBytes))
    {
      hide Big32, Text, Decode;
      WriteWord(CONTENT_TYPE);
      WriteWord(SUBTYPE_TBL_IMG);
      WriteWord(FILE_HEADER_SIZE);
      WriteWord(GetOr(options.spacecraftId, 0));
      WriteWord(GetOr(options.processorId, 0));
      WriteWord(GetOr(options.applicationId, 0));
      WriteWord(GetOr(options.timeTag, 0));
      WriteWord(0);
      WriteText(GetOr(options.description, Text(Slice(tblFileDef, DESCRIPTION))), 32);
      WriteWord(0);
      WriteWord(0);
      WriteWord(numBytes);
      WriteText(GetOr(options.tableName, Text(Slice(tblFileDef, TABLE_NAME))), 40);
      assert [] + Big32(CONTENT_TYPE) == Big32(CONTENT_TYPE);
    }

    method WriteZeros(size: nat)
      requires output.Some?
      modifies `output
      ensures output == Some(old(output).value + seq(size, _ => 0))
    {
      ghost var before := output.value;
      ghost var zeros: seq<byte> := [];
      var i := 0;
      while i < size
        invariant 0 <= i <= size
        invariant |zeros| == i && zeros == seq(i, _ => 0)
        invariant output.Some? && output.value == before + zeros
      {
        Write([0]);
        zeros := zeros + [0];
        i := i + 1;
      }
    }

    /** Copies bytes from the source; what a read past its end yields is written as 0xFF. */
    method CopyObject(size: nat)
      requires output.Some?
      modifies `output, `position
      ensures output == Some(old(output).value + ReadThrough(source, old(position), size))
    {
      ghost var before, start := output.value, position;
      ghost var copied: seq<byte> := [];
      var i := 0;
      while i < size
        invariant 0 <= i <= size
        invariant position == if start + i <= |source| then start + i else if start <= |source| then |source| else start
        invariant |copied| == i && copied == ReadThrough(source, start, i)
        invariant output.Some? && output.value == before + copied
      {
        var c := GetChar();
        var aByte: byte := if c == EOF then 0xFF else c;
        Write([aByte]);
        copied := copied + [aByte];
        i := i + 1;
      }
    }

    method OutputDataToTargetFile(ghost d: Descriptor)
      requires output == Some([]) && thisMachineIsLittleEndian == hostIsLittle && options.Valid()
      requires ShowsDescriptor(tblFileDef, d, hostIsLittle)
      requires 0 <= userObjSymbolIndex < |symbols|
      modifies `output, `position
      ensures
        var size := Get(symbols[userObjSymbolIndex], StSize(targetWordsizeIs32Bit));
        output == Some(Headers(options, d, size) +
                       if tableDataIsAllZeros then seq(size, _ => 0) else ReadThrough(source, old(position), size))
    {
      hide HostField, DescriptorOf, Headers, ReadThrough;
      var size := Get(symbols[userObjSymbolIndex], StSize(targetWordsizeIs32Bit));
      WriteHeaders(size, d);
      if tableDataIsAllZeros {
        WriteZeros(size);
      } else {
        CopyObject(size);
      }
    }

    // -------------------------------------------------------------------------
    // The main sequence
    // -------------------------------------------------------------------------

    /** Reads the section-name header, then all section headers. */
    method ReadAllSections(ghost e: Elf) returns (ok: bool, ghost s: seq<Section>)
      requires HeaderLoaded(e) && SafePosition(e, e.shstrndx) && (SectionReadable(e, e.shstrndx) ==> SafeSections(e))
      requires namesOffset == 0 && CurrentTables() == NO_TABLES
      modifies `position, `namesOffset, `sectionHeaders, `sectionNames, `stringTableDataOffset,
               `symbolTableDataOffset, `symbolTableEntrySize, `numSymbols
      ensures ok <==> SectionsReadable(e) && e.shnum != 0
      ensures ok ==> HeaderLoaded(e) && s == Sections(e, e.shnum)
      ensures ok ==> SectionsShown(s, |s|) && CurrentTables() == TablesOf(e)
    {
      hide FieldAt, HostField, SectionReadable, SectionAt, SafeSections;
      s := Sections(e, e.shnum);
      var header: seq<byte>;
      ok, header := GetSectionHeader(Get(elfHeader, EShstrndx(targetWordsizeIs32Bit)), e);
      if !ok {
        return;
      }
      namesOffset := Int64(Get(header, ShOffset(targetWordsizeIs32Bit)));
      OffsetOfSection(e, e.shstrndx);
      if Get(elfHeader, EShnum(targetWordsizeIs32Bit)) == 0 {
        ok := false;
        return;
      }
      ok := ReadSections(e, s);
      assert s[..|s|] == s;
    }

    /** The string table and the symbols must be there, and every symbol is read. */
    method ReadAllSymbols(ghost e: Elf, ghost t: Tables) returns (ok: bool, ghost y: seq<Symbol>)
      requires HeaderLoaded(e) && CurrentTables() == t && (t.strtab != 0 ==> SafeSymbols(e, t))
      requires tblDefSymbolIndex == -1
      modifies `position, `symbols, `symbolNames, `tblDefSymbolIndex
      ensures ok <==> SymbolsReadable(e, t)
      ensures ok ==> HeaderLoaded(e) && y == Symbols(e, t, t.count)
      ensures ok ==> SymbolsShown(y, |y|) && numSymbols == |y| && tblDefSymbolIndex == LastDescriptor(y)
    {
      hide FieldAt, HostField, SymbolReadable, SymbolAt, SafeSymbols;
      y := Symbols(e, t, t.count);
      if stringTableDataOffset == 0 {
        return false, y;
      }
      if numSymbols == 0 {
        return false, y;
      }
      ok := ReadSymbols(e, t, y);
      assert y[..|y|] == y;
    }

    /** Reads the file header, the section headers and the symbols. */
    method ReadTables() returns (ok: bool, ghost e: Elf, ghost s: seq<Section>, ghost y: seq<Symbol>)
      requires Fresh() && Safe(source)
      modifies this
      ensures dstFilename == old(dstFilename) && output == old(output) && !tableDataIsAllZeros
      ensures ok <==> (Open(source).Some? && SectionsReadable(Open(source).value) &&
                       SymbolsReadable(Open(source).value, TablesOf(Open(source).value)))
      ensures ok ==> Open(source) == Some(e) && HeaderLoaded(e)
      ensures ok ==> s == Sections(e, e.shnum) && y == Symbols(e, TablesOf(e), TablesOf(e).count)
      ensures ok ==> SectionsShown(s, |s|) && SymbolsShown(y, |y|) && numSymbols == |y|
      ensures ok ==> tblDefSymbolIndex == LastDescriptor(y)
    {
      hide Open, HostField, SectionReadable, SectionAt, SymbolReadable, SymbolAt, SafeSymbols, SafeSections, SafeObjects;
      hide FieldAt, SectionsShown, SymbolsShown, HeaderLoaded, LastDescriptor, SafePosition;
      s, y := [], [];
      ok, e := GetElfHeader();
      if !ok {
        return;
      }
      ok, s := ReadAllSections(e);
      if !ok {
        NoSectionsNoTables(e);
        return;
      }
      ok, y := ReadAllSymbols(e, TablesOf(e));
    }

    /** Opens the target file, finds the object and writes the image. */
    method ConvertObject(ghost d: Descriptor, ghost s: seq<Section>, ghost y: seq<Symbol>, ghost u: nat)
      returns (outcome: Outcome)
      requires options.Valid() && thisMachineIsLittleEndian == hostIsLittle
      requires SectionsShown(s, |s|) && SymbolsShown(y, |y|) && numSymbols == |y|
      requires ShowsDescriptor(tblFileDef, d, hostIsLittle) && u == FirstObject(y, d.objectName, 0)
      requires u < |y| ==> SafeObject(s, y[u], d.objectSize)
      requires !tableDataIsAllZeros && dstFilename == options.directory && output == None
      modifies this
      ensures outcome == if u == |y| then Abandoned(TargetFile(options, d))
                         else Translate(source, options, d, y[u], s[y[u].shndx])
      ensures outcome.Abandoned? ==> output == Some([])
      ensures outcome.Written? ==> output == Some(outcome.image)
      ensures !outcome.Rejected? && dstFilename == outcome.file
    {
      hide HostField, DescriptorOf, Headers, ReadThrough, ObjectPos, StoredSize, FirstObject, SectionsShown;
      DescriptorTexts(tblFileDef, d, hostIsLittle);
      if dstFilename == [] {
        dstFilename := [0x2e, 0x2f];
      }
      dstFilename := dstFilename + Text(Slice(tblFileDef, TGT_FILENAME));
      output := Some([]);
      var ok := LocateAndReadUserObject(s, y, u);
      if !ok {
        return Abandoned(dstFilename);
      }
      OutputDataToTargetFile(d);
      return Written(dstFilename, output.value);
    }

    /** Everything after the symbols: the descriptor, the target file, the object and the image. */
    method ConvertObjects(ghost little: bool, ghost s: seq<Section>, ghost y: seq<Symbol>) returns (outcome: Outcome)
      requires options.Valid() && SafeObjects(source, little, s, y)
      requires byteSwapRequired == (hostIsLittle != little) && thisMachineIsLittleEndian == hostIsLittle
      requires SectionsShown(s, |s|) && SymbolsShown(y, |y|) && numSymbols == |y|
      requires tblDefSymbolIndex == LastDescriptor(y)
      requires !tableDataIsAllZeros && dstFilename == options.directory && output == None
      modifies this
      ensures outcome == RunObjects(source, little, s, y, options)
      ensures outcome.Rejected? ==> output == None
      ensures outcome.Abandoned? ==> output == Some([])
      ensures outcome.Written? ==> output == Some(outcome.image)
      ensures !outcome.Rejected? ==> dstFilename == outcome.file
    {
      hide HostField, DescriptorReadable, DescriptorAt, DescriptorOf, SafeObject, Translate, TargetFile, FirstObject;
      if tblDefSymbolIndex == -1 {
        return Rejected;
      }
      ghost var dy := y[tblDefSymbolIndex];
      ghost var dhome := if dy.shndx < |s| then s[dy.shndx] else Section(None, 0, 0, 0, 0);
      ReadableIsSized(source, dy, dhome);
      var ok := GetTblDefInfo(little, dy, dhome);
      if !ok {
        return Rejected;
      }
      ghost var d := DescriptorAt(source, little, dy, dhome);
      outcome := ConvertObject(d, s, y, FirstObject(y, d.objectName, 0));
    }

    /**
     * The whole program. Its outcome is a function of the source file and the options: neither the
     * machine it runs on nor the Verbose flag makes a difference.
     */
    method Convert() returns (outcome: Outcome)
      requires Fresh() && options.Valid() && Safe(source)
      modifies this
      ensures outcome == Run(source, options)
      ensures outcome.Rejected? ==> output == None
      ensures outcome.Abandoned? ==> output == Some([])
      ensures outcome.Written? ==> output == Some(outcome.image)
      ensures !outcome.Rejected? ==> dstFilename == outcome.file
    {
      hide FieldAt, HostField, SectionReadable, SectionAt, SymbolReadable, SymbolAt, StringAt, Open, SafeObjects;
      var ok: bool;
      ghost var e: Elf, s: seq<Section>, y: seq<Symbol>;
      ok, e, s, y := ReadTables();
      if !ok {
        return Rejected;
      }
      outcome := ConvertObjects(e.little, s, y);
    }
  }
}
