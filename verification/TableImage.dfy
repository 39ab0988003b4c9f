/** The table file as the flight software reads it: both headers big-endian, then the table data. */
module TableImage {
  import opened Common
  import opened Bytes
  import opened ElfSpec

  // ---------------------------------------------------------------------------
  // Reading a table file
  // ---------------------------------------------------------------------------

  const HEADERS_SIZE := 116

  // The file header.
  const CONTENT_TYPE_FIELD := Field(0, 4)
  const SUB_TYPE_FIELD := Field(4, 4)
  const LENGTH_FIELD := Field(8, 4)
  const SPACECRAFT_ID_FIELD := Field(12, 4)
  const PROCESSOR_ID_FIELD := Field(16, 4)
  const APPLICATION_ID_FIELD := Field(20, 4)
  const TIME_SECONDS_FIELD := Field(24, 4)
  const TIME_SUB_SECONDS_FIELD := Field(28, 4)
  const DESCRIPTION_FIELD := Field(32, 32)

  // The table header, which follows it.
  const RESERVED_FIELD := Field(64, 4)
  const OFFSET_FIELD := Field(68, 4)
  const NUM_BYTES_FIELD := Field(72, 4)
  const TABLE_NAME_FIELD := Field(76, 40)

  /** The record of both headers. */
  datatype TableHeader = TableHeader(
    contentType: nat, subType: nat, length: nat,
    spacecraftId: nat, processorId: nat, applicationId: nat, timeSeconds: nat, timeSubSeconds: nat,
    description: seq<byte>, reserved: nat, offset: nat, numBytes: nat, tableName: seq<byte>)

  function Number(image: seq<byte>, f: Field): nat
    requires f.Fits(|image|)
  {
    Decode(Slice(image, f), false)
  }

  function Characters(image: seq<byte>, f: Field): seq<byte>
    requires f.Fits(|image|)
  {
    CString(Slice(image, f), 0)
  }

  function Parse(image: seq<byte>): TableHeader
    requires |image| >= HEADERS_SIZE
  {
    TableHeader(
      Number(image, CONTENT_TYPE_FIELD), Number(image, SUB_TYPE_FIELD), Number(image, LENGTH_FIELD),
      Number(image, SPACECRAFT_ID_FIELD), Number(image, PROCESSOR_ID_FIELD), Number(image, APPLICATION_ID_FIELD),
      Number(image, TIME_SECONDS_FIELD), Number(image, TIME_SUB_SECONDS_FIELD),
      Characters(image, DESCRIPTION_FIELD),
      Number(image, RESERVED_FIELD), Number(image, OFFSET_FIELD), Number(image, NUM_BYTES_FIELD),
      Characters(image, TABLE_NAME_FIELD))
  }

  // ---------------------------------------------------------------------------
  // Header round trip
  // ---------------------------------------------------------------------------

  predicate ZeroFrom(image: seq<byte>, from: nat, to: nat)
    requires to <= |image|
  {
    forall i | from <= i < to :: image[i] == 0
  }

  lemma LastPiece(image: seq<byte>, front: seq<byte>, piece: seq<byte>)
    requires front + piece <= image
    ensures front <= image && image[|front|..|front| + |piece|] == piece
  {
  }

  lemma NumberWritten(image: seq<byte>, at: nat, v: int)
    requires at + 4 <= |image| && image[at..at + 4] == Big32(v)
    ensures Number(image, Field(at, 4)) == UInt32(v)
  {
    assert Span(4) == 0x1_0000_0000 by {
      assert Span(0) == 1 && Span(1) == 256 && Span(2) == 0x1_0000;
    }
    EncodeRoundTrip(UInt32(v), 4, false);
  }

  lemma CharactersWritten(image: seq<byte>, f: Field, text: seq<byte>)
    requires f.Fits(|image|) && |text| < f.width && 0 !in text
    requires Slice(image, f) == Padded(text, f.width)
    ensures Characters(image, f) == text
    ensures ZeroFrom(image, f.at + |text|, f.at + f.width)
  {
    hide Padded;
    var field := Slice(image, f);
    assert field[|text|] == 0;
    CStringUnique(field, 0, text);
    ZerosOfField(image, f, field, |text|);
  }

  lemma ZerosOfField(image: seq<byte>, f: Field, field: seq<byte>, n: nat)
    requires f.Fits(|image|) && field == Slice(image, f) && n <= f.width && ZeroFrom(field, n, f.width)
    ensures ZeroFrom(image, f.at + n, f.at + f.width)
  {
    forall i | f.at + n <= i < f.at + f.width ensures image[i] == 0 {
      assert image[i] == field[i - f.at];
    }
  }

  /** The numbers and texts of the headers sit at the fields' places. */
  lemma FileHeaderSlices(image: seq<byte>, o: Options, d: Descriptor, n: nat)
    requires o.Valid() && |d.tableName| < 40 && |d.description| < 32 && Headers(o, d, n) <= image
    ensures image[0..4] == Big32(CONTENT_TYPE) && image[4..8] == Big32(SUBTYPE_TBL_IMG)
    ensures image[8..12] == Big32(FILE_HEADER_SIZE) && image[12..16] == Big32(GetOr(o.spacecraftId, 0))
    ensures image[16..20] == Big32(GetOr(o.processorId, 0)) && image[20..24] == Big32(GetOr(o.applicationId, 0))
    ensures image[24..28] == Big32(GetOr(o.timeTag, 0)) && image[28..32] == Big32(0)
    ensures image[32..64] == Padded(GetOr(o.description, d.description), 32)
    ensures image[64..68] == Big32(0) && image[68..72] == Big32(0) && image[72..76] == Big32(n)
    ensures image[76..116] == Padded(GetOr(o.tableName, d.tableName), 40)
  {
    hide Big32, Padded;
    var p4 := Big32(CONTENT_TYPE);
    var p8 := p4 + Big32(SUBTYPE_TBL_IMG);
    var p12 := p8 + Big32(FILE_HEADER_SIZE);
    var p16 := p12 + Big32(GetOr(o.spacecraftId, 0));
    var p20 := p16 + Big32(GetOr(o.processorId, 0));
    var p24 := p20 + Big32(GetOr(o.applicationId, 0));
    var p28 := p24 + Big32(GetOr(o.timeTag, 0));
    var p32 := p28 + Big32(0);
    var p64 := p32 + Padded(GetOr(o.description, d.description), 32);
    var p68 := p64 + Big32(0);
    var p72 := p68 + Big32(0);
    var p76 := p72 + Big32(n);
    LastPiece(image, p76, Padded(GetOr(o.tableName, d.tableName), 40));
    LastPiece(image, p72, Big32(n));
    LastPiece(image, p68, Big32(0));
    LastPiece(image, p64, Big32(0));
    LastPiece(image, p32, Padded(GetOr(o.description, d.description), 32));
    LastPiece(image, p28, Big32(0));
    LastPiece(image, p24, Big32(GetOr(o.timeTag, 0)));
    LastPiece(image, p20, Big32(GetOr(o.applicationId, 0)));
    LastPiece(image, p16, Big32(GetOr(o.processorId, 0)));
    LastPiece(image, p12, Big32(GetOr(o.spacecraftId, 0)));
    LastPiece(image, p8, Big32(FILE_HEADER_SIZE));
    LastPiece(image, p4, Big32(SUBTYPE_TBL_IMG));
  }

  /** An id in the header is the one given on the command line, in 32 bits, and otherwise 0. */
  predicate Given(id: nat, option: Option<nat>) {
    && (option.Some? ==> id == option.value % 0x1_0000_0000)
    && (option.None? ==> id == 0)
  }

  /** Reading an image's headers big-endian recovers every number and text they were made of. */
  lemma HeaderRoundTrip(image: seq<byte>, o: Options, d: Descriptor, n: nat)
    requires o.Valid() && |d.tableName| < 40 && |d.description| < 32 && Headers(o, d, n) <= image
    requires 0 !in d.tableName && 0 !in d.description
    ensures
      var h := Parse(image);
      && h.contentType == 0x63464531 && h.subType == 8 && h.length == 64
      && Given(h.spacecraftId, o.spacecraftId) && Given(h.processorId, o.processorId)
      && Given(h.applicationId, o.applicationId)
      && (o.timeTag.None? ==> h.timeSeconds == 0)
      && (o.timeTag.Some? ==> h.timeSeconds == o.timeTag.value % 0x1_0000_0000)
      && h.timeSubSeconds == 0 && h.reserved == 0 && h.offset == 0
      && h.numBytes == n % 0x1_0000_0000
      && (o.description.Some? ==> h.description == o.description.value)
      && (o.description.None? ==> h.description == d.description)
      && (o.tableName.Some? ==> h.tableName == o.tableName.value)
      && (o.tableName.None? ==> h.tableName == d.tableName)
      && ZeroFrom(image, 32 + |h.description|, 64) && ZeroFrom(image, 76 + |h.tableName|, 116)
  {
    hide Big32, Padded, Headers, Number, Characters;
    FileHeaderSlices(image, o, d, n);
    NumberWritten(image, 0, CONTENT_TYPE);
    NumberWritten(image, 4, SUBTYPE_TBL_IMG);
    NumberWritten(image, 8, FILE_HEADER_SIZE);
    NumberWritten(image, 12, GetOr(o.spacecraftId, 0));
    NumberWritten(image, 16, GetOr(o.processorId, 0));
    NumberWritten(image, 20, GetOr(o.applicationId, 0));
    NumberWritten(image, 24, GetOr(o.timeTag, 0));
    NumberWritten(image, 28, 0);
    CharactersWritten(image, DESCRIPTION_FIELD, GetOr(o.description, d.description));
    NumberWritten(image, 64, 0);
    NumberWritten(image, 68, 0);
    NumberWritten(image, 72, n);
    CharactersWritten(image, TABLE_NAME_FIELD, GetOr(o.tableName, d.tableName));
  }

  /** The number of four bytes, the first the most significant. */
  function FromBytes(a: byte, b: byte, c: byte, d: byte): nat {
    a * 0x100_0000 + b * 0x1_0000 + c * 0x100 + d
  }

  /** It is written as those four bytes, in order. */
  lemma BytesInOrder(a: byte, b: byte, c: byte, d: byte)
    ensures FromBytes(a, b, c, d) < 0x1_0000_0000
    ensures Big32(FromBytes(a, b, c, d)) == [a, b, c, d]
  {
    hide LittleBytes;
    LeadingByte(d, c + 0x100 * (b + 0x100 * a), 3);
    LeadingByte(c, b + 0x100 * a, 2);
    LeadingByte(b, a, 1);
    LeadingByte(a, 0, 0);
    assert LittleBytes(FromBytes(a, b, c, d), 4) == [d, c, b, a];
  }

  lemma LeadingByte(x: byte, rest: nat, n: nat)
    ensures LittleBytes(x + 0x100 * rest, n + 1) == [x] + LittleBytes(rest, n)
  {
    var v := x + 0x100 * rest;
    Quotient(x, rest);
    assert LittleBytes(v, n + 1) == [v % 256] + LittleBytes(v / 256, n);
  }

  lemma Quotient(x: byte, rest: nat)
    ensures (x + 0x100 * rest) / 256 == rest && (x + 0x100 * rest) % 256 == x
  {
  }

  // ---------------------------------------------------------------------------
  // Payload exactness
  // ---------------------------------------------------------------------------

  /**
   * The payload of an object: for .bss as many zeros as the symbol's size; otherwise the object's size is
   * the descriptor's, cut to the symbol's unless that is zero, and the bytes are those of the source
   * from the section's offset plus the symbol's value on, with 0xFF for each byte past the end.
   */
  ghost predicate PayloadOf(payload: seq<byte>, src: seq<byte>, d: Descriptor, y: Symbol, home: Section) {
    if home.name == Some(Ascii(".bss")) then |payload| == y.size && ZeroFrom(payload, 0, |payload|)
    else
      && |payload| <= d.objectSize
      && (y.size == 0 ==> |payload| == d.objectSize)
      && (y.size > 0 ==> |payload| <= y.size && (|payload| == d.objectSize || |payload| == y.size))
      && (home.offset + y.value < 0x1_0000_0000_0000_0000 ==>
            var at := home.offset + y.value;
            && at < 0x1_0000_0000
            && (at + |payload| <= |src| ==> payload == src[at..at + |payload|])
            && forall i | 0 <= i < |payload| :: payload[i] == if at + i < |src| then src[at + i] else 0xFF)
  }

  lemma TranslatedPayload(src: seq<byte>, o: Options, d: Descriptor, y: Symbol, home: Section)
    requires o.Valid() && |d.tableName| < 40 && |d.description| < 32 && 0 !in d.tableName && 0 !in d.description
    requires (if home.name == Some(BSS_NAME) then y.size else StoredSize(y.size, d.objectSize)) < 0x8000_0000
    ensures
      var r := Translate(src, o, d, y, home);
      r.Written? ==>
        && |r.image| >= HEADERS_SIZE
        && Parse(r.image).numBytes == |r.image| - HEADERS_SIZE
        && PayloadOf(r.image[HEADERS_SIZE..], src, d, y, home)
  {
    hide Headers, Parse, TargetFile, PayloadOf;
    var r := Translate(src, o, d, y, home);
    if r.Written? {
      var n := if home.name == Some(BSS_NAME) then y.size else StoredSize(y.size, d.objectSize);
      assert r.image[..HEADERS_SIZE] == Headers(o, d, n);
      HeaderRoundTrip(r.image, o, d, n);
      var payload := r.image[HEADERS_SIZE..];
      if home.name == Some(BSS_NAME) {
        assert payload == seq(n, _ => 0);
      } else {
        assert payload == ReadThrough(src, ObjectPos(y, home), n);
      }
      PayloadBytes(payload, src, d, y, home);
    }
  }

  lemma PayloadBytes(payload: seq<byte>, src: seq<byte>, d: Descriptor, y: Symbol, home: Section)
    requires home.name == Some(BSS_NAME) ==> payload == seq(y.size, _ => 0)
    requires home.name != Some(BSS_NAME) ==>
      && ObjectPos(y, home) < 0x1_0000_0000
      && payload == ReadThrough(src, ObjectPos(y, home), StoredSize(y.size, d.objectSize))
    ensures PayloadOf(payload, src, d, y, home)
  {
    SectionTexts();
  }

  /** CFE_TBL_FileDef, or that with one character before it. */
  ghost predicate IsDescriptorName(name: seq<byte>) {
    name == Ascii("CFE_TBL_FileDef") || exists c: byte :: name == [c] + Ascii("CFE_TBL_FileDef")
  }

  /** The name of the object, or that with one character after it. */
  ghost predicate IsObjectName(name: seq<byte>, objectName: seq<byte>) {
    name == objectName || exists c: byte :: name == objectName + [c]
  }

  lemma DescriptorNames(name: seq<byte>)
    ensures NamesDescriptor(name) <==> IsDescriptorName(name)
  {
    SectionTexts();
    if NamesDescriptor(name) && name != DEF_NAME {
      assert name == [name[0]] + DEF_NAME;
    }
  }

  lemma ObjectNames(name: seq<byte>, objectName: seq<byte>)
    ensures NamesObject(name, objectName) <==> IsObjectName(name, objectName)
  {
    if NamesObject(name, objectName) && name != objectName {
      assert name == objectName + [name[|objectName|]];
    }
  }

  /**
   * Symbol i is the last that names the descriptor, with definition d; symbol u is the first that names
   * the object of d, and home is its section.
   */
  ghost predicate SelectsAmong(src: seq<byte>, little: bool, sections: seq<Section>, symbols: seq<Symbol>,
                               i: nat, u: nat, d: Descriptor, y: Symbol, home: Section) {
    && i < |symbols| && IsDescriptorName(symbols[i].name)
    && (forall j | i < j < |symbols| :: !IsDescriptorName(symbols[j].name))
    && symbols[i].shndx < |sections| && DescriptorReadable(src, symbols[i], sections[symbols[i].shndx])
    && d == DescriptorAt(src, little, symbols[i], sections[symbols[i].shndx])
    && u < |symbols| && IsObjectName(symbols[u].name, d.objectName)
    && (forall j | 0 <= j < u :: !IsObjectName(symbols[j].name, d.objectName))
    && y == symbols[u] && y.shndx < |sections| && home == sections[y.shndx]
  }

  ghost predicate Selects(src: seq<byte>, i: nat, u: nat, d: Descriptor, y: Symbol, home: Section) {
    && Open(src).Some?
    && var e := Open(src).value;
       SelectsAmong(src, e.little, Sections(e, e.shnum), Symbols(e, TablesOf(e), TablesOf(e).count), i, u, d, y, home)
  }

  /** The image is complete: NumBytes counts the payload, and the payload is the object's. */
  ghost predicate Exact(image: seq<byte>, src: seq<byte>, d: Descriptor, y: Symbol, home: Section) {
    && |image| >= HEADERS_SIZE
    && Parse(image).numBytes == |image| - HEADERS_SIZE
    && PayloadOf(image[HEADERS_SIZE..], src, d, y, home)
  }

  /** The target file is the descriptor's, in the directory given, or else in the current one. */
  predicate InDirectory(file: seq<byte>, directory: seq<byte>, name: seq<byte>) {
    && (directory != [] ==> file == directory + name)
    && (directory == [] ==> file == Ascii("./") + name)
  }

  lemma TargetInDirectory(o: Options, d: Descriptor)
    ensures InDirectory(TargetFile(o, d), o.directory, d.tgtFilename)
  {
    assert Ascii("./") == [0x2e, 0x2f];
  }

  lemma ObjectSelected(src: seq<byte>, little: bool, sections: seq<Section>, symbols: seq<Symbol>, o: Options)
    returns (i: nat, u: nat, d: Descriptor, y: Symbol, home: Section)
    requires o.Valid() && SafeObjects(src, little, sections, symbols)
    requires RunObjects(src, little, sections, symbols, o).Written?
    ensures SelectsAmong(src, little, sections, symbols, i, u, d, y, home)
    ensures Exact(RunObjects(src, little, sections, symbols, o).image, src, d, y, home)
    ensures InDirectory(RunObjects(src, little, sections, symbols, o).file, o.directory, d.tgtFilename)
  {
    hide Translate, Parse, PayloadOf, NamesObject, NamesDescriptor, LastDescriptor, FirstObject, DescriptorReadable;
    hide TargetFile, DescriptorAt, SafeObject, IsObjectName, IsDescriptorName;
    i := LastDescriptor(symbols);
    DescriptorTextsFit(src, little, symbols[i], sections[symbols[i].shndx]);
    d := DescriptorAt(src, little, symbols[i], sections[symbols[i].shndx]);
    u := FirstObject(symbols, d.objectName, 0);
    forall j | 0 <= j < |symbols|
      ensures NamesDescriptor(symbols[j].name) <==> IsDescriptorName(symbols[j].name)
      ensures NamesObject(symbols[j].name, d.objectName) <==> IsObjectName(symbols[j].name, d.objectName)
    {
      DescriptorNames(symbols[j].name);
      ObjectNames(symbols[j].name, d.objectName);
    }
    y := symbols[u];
    ObjectSized(sections, y, d.objectSize);
    TranslatedFile(src, o, d, y, sections[y.shndx]);
    TargetInDirectory(o, d);
    home := sections[y.shndx];
    TranslatedPayload(src, o, d, y, home);
  }

  lemma TranslatedFile(src: seq<byte>, o: Options, d: Descriptor, y: Symbol, home: Section)
    requires o.Valid() && |d.tableName| < 40 && |d.description| < 32
    requires Translate(src, o, d, y, home).Written?
    ensures Translate(src, o, d, y, home).file == TargetFile(o, d)
  {
  }

  lemma ObjectSized(sections: seq<Section>, y: Symbol, objectSize: nat)
    requires SafeObject(sections, y, objectSize)
    ensures y.shndx < |sections|
    ensures
      var n := if sections[y.shndx].name == Some(BSS_NAME) then y.size else StoredSize(y.size, objectSize);
      n < 0x8000_0000
  {
  }

  lemma DescriptorTextsFit(src: seq<byte>, little: bool, s: Symbol, home: Section)
    requires DescriptorReadable(src, s, home)
    ensures
      var d := DescriptorAt(src, little, s, home);
      |d.tableName| < 40 && |d.description| < 32 && 0 !in d.tableName && 0 !in d.description
  {
  }

  /** Payload exactness: a run that writes an image selected a descriptor and its object, and wrote that object. */
  lemma PayloadExactness(src: seq<byte>, o: Options)
    returns (i: nat, u: nat, d: Descriptor, y: Symbol, home: Section)
    requires o.Valid() && Safe(src) && Run(src, o).Written?
    ensures Selects(src, i, u, d, y, home)
    ensures Exact(Run(src, o).image, src, d, y, home)
    ensures InDirectory(Run(src, o).file, o.directory, d.tgtFilename)
  {
    hide RunObjects, Exact, SelectsAmong, SafeObjects, Sections, Symbols, TablesOf, Open, SectionsReadable;
    hide SymbolsReadable;
    hide SafePosition, SafeSections, SafeSymbols;
    var e := Open(src).value;
    i, u, d, y, home :=
      ObjectSelected(src, e.little, Sections(e, e.shnum), Symbols(e, TablesOf(e), TablesOf(e).count), o);
  }
}
