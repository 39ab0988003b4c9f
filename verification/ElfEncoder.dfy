/** An encoder of abstract objects as ELF files of either class and either byte order. */
module ElfEncoder {
  import opened Common
  import opened Bytes
  import opened ElfLayout
  import opened ElfSpec
  import opened ElfRecords
  import opened ElfTables
  import opened ObjectFile

  // ---------------------------------------------------------------------------
  // Pieces laid end to end
  // ---------------------------------------------------------------------------

  function Flat(pieces: seq<seq<byte>>): seq<byte> {
    if pieces == [] then [] else Flat(pieces[..|pieces| - 1]) + pieces[|pieces| - 1]
  }

  /** Where the k-th piece starts. */
  function Start(pieces: seq<seq<byte>>, k: nat): nat
    requires k <= |pieces|
  {
    |Flat(pieces[..k])|
  }

  lemma {:induction false} PieceAt(pieces: seq<seq<byte>>, k: nat)
    requires k < |pieces|
    ensures Start(pieces, k) + |pieces[k]| <= |Flat(pieces)|
    ensures Flat(pieces)[Start(pieces, k)..Start(pieces, k) + |pieces[k]|] == pieces[k]
    decreases |pieces|
  {
    var n := |pieces| - 1;
    if k < n {
      assert pieces[..n][..k] == pieces[..k];
      PieceAt(pieces[..n], k);
    }
  }

  lemma {:induction false} UniformStart(pieces: seq<seq<byte>>, k: nat, width: nat)
    requires k <= |pieces| && forall i | 0 <= i < |pieces| :: |pieces[i]| == width
    ensures Start(pieces, k) == k * width
    decreases k
  {
    if k > 0 {
      assert pieces[..k][..k - 1] == pieces[..k - 1];
      UniformStart(pieces, k - 1, width);
      assert k * width == (k - 1) * width + width;
    }
  }

  // ---------------------------------------------------------------------------
  // String tables
  // ---------------------------------------------------------------------------

  function Terminated(names: seq<seq<byte>>): (r: seq<seq<byte>>)
    ensures |r| == |names|
    ensures forall i | 0 <= i < |names| :: r[i] == names[i] + [0]
  {
    seq(|names|, i requires 0 <= i < |names| => names[i] + [0])
  }

  function StringTable(names: seq<seq<byte>>): seq<byte> {
    [0] + Flat(Terminated(names))
  }

  function NameOffset(names: seq<seq<byte>>, k: nat): nat
    requires k < |names|
  {
    1 + Start(Terminated(names), k)
  }

  predicate IsName(name: seq<byte>) {
    0 !in name && |name| < NAME_SIZE
  }

  /** A terminated name in a file can be read. */
  lemma TerminatedRead(src: seq<byte>, at: nat, name: seq<byte>)
    requires IsName(name) && Located(src, at, name + [0])
    ensures StringAt(src, at) == name && StringFits(src, at)
  {
    var s := src[at..at + |name| + 1];
    assert src[at..at + |name|] == s[..|name|] == name;
    assert src[at + |name|] == s[|name|] == 0;
    CStringUnique(src, at, name);
  }

  /** So can a name in a string table. */
  lemma NameRead(src: seq<byte>, at: nat, names: seq<seq<byte>>, k: nat)
    requires k < |names| && IsName(names[k]) && Located(src, at, StringTable(names))
    ensures StringAt(src, at + NameOffset(names, k)) == names[k]
    ensures StringFits(src, at + NameOffset(names, k))
    ensures 0 < NameOffset(names, k) < |StringTable(names)|
  {
    hide Flat, StringAt, StringFits, IsName;
    var pieces := Terminated(names);
    PieceAt(pieces, k);
    assert Located([0] + Flat(pieces), 1, Flat(pieces));
    LocatedInside(StringTable(names), 1, Flat(pieces), Start(pieces, k), pieces[k]);
    LocatedInside(src, at, StringTable(names), NameOffset(names, k), pieces[k]);
    TerminatedRead(src, at + NameOffset(names, k), names[k]);
  }

  // ---------------------------------------------------------------------------
  // The file
  // ---------------------------------------------------------------------------

  /** A section to be written; the first one of a file has no name. */
  datatype Plan = Plan(nameOffset: nat, kind: nat, bytes: seq<byte>, entsize: nat)

  function SectionNames(obj: Object): (r: seq<seq<byte>>)
    ensures |r| == |obj.parts| + 3
    ensures forall i | 0 <= i < |obj.parts| :: r[i] == obj.parts[i].name
    ensures r[|obj.parts|] == Ascii(".symtab") && r[|obj.parts| + 1] == Ascii(".strtab")
    ensures r[|obj.parts| + 2] == Ascii(".shstrtab")
  {
    seq(|obj.parts|, i requires 0 <= i < |obj.parts| => obj.parts[i].name) +
    [Ascii(".symtab"), Ascii(".strtab"), Ascii(".shstrtab")]
  }

  function SymbolNames(obj: Object): (r: seq<seq<byte>>)
    ensures |r| == |obj.symbols|
    ensures forall i | 0 <= i < |r| :: r[i] == obj.symbols[i].name
  {
    seq(|obj.symbols|, i requires 0 <= i < |obj.symbols| => obj.symbols[i].name)
  }

  /** The i-th entry of the symbol table; entry 0 is all zeros. */
  function SymbolRecord(obj: Object, i: nat): SymbolEntry
    requires i <= |obj.symbols|
  {
    if i == 0 then SymbolEntry(0, 0, 0, 0, 0, 0) else
      var y := obj.symbols[i - 1];
      SymbolEntry(NameOffset(SymbolNames(obj), i - 1), y.value, y.size, 0, 0,
                  if y.shndx < |obj.parts| then y.shndx + 1 else 0)
  }

  function SymbolEntries(obj: Object, is32: bool, little: bool): (r: seq<seq<byte>>)
    ensures |r| == |obj.symbols| + 1
    ensures forall i | 0 <= i < |r| :: r[i] == SymbolRecord(obj, i).Bytes(is32, little)
  {
    seq(|obj.symbols| + 1, i requires 0 <= i < |obj.symbols| + 1 => SymbolRecord(obj, i).Bytes(is32, little))
  }

  /** The section at an index: none, the object's, the symbol table, and the two string tables. */
  function SectionPlan(obj: Object, i: nat, is32: bool, little: bool): Plan
    requires obj.HasDescriptor() && i < |obj.parts| + 4
  {
    var n, names := |obj.parts|, SectionNames(obj);
    if i == 0 then Plan(0, 0, [], 0) else
      var at := NameOffset(names, i - 1);
      if i <= n then
        if names[i - 1] == Ascii(".bss") then Plan(at, 8, [], 0)
        else Plan(at, 1, obj.FileBytes(i - 1, little), 0)
      else if i == n + 1 then Plan(at, 2, Flat(SymbolEntries(obj, is32, little)), SymSize(is32))
      else if i == n + 2 then Plan(at, 3, StringTable(SymbolNames(obj)), 0)
      else Plan(at, 3, StringTable(names), 0)
  }

  function Contents(obj: Object, is32: bool, little: bool): (r: seq<seq<byte>>)
    requires obj.HasDescriptor()
    ensures |r| == |obj.parts| + 4
    ensures forall i | 0 <= i < |r| :: r[i] == SectionPlan(obj, i, is32, little).bytes
  {
    seq(|obj.parts| + 4, i requires 0 <= i < |obj.parts| + 4 => SectionPlan(obj, i, is32, little).bytes)
  }

  function ContentOffset(obj: Object, i: nat, is32: bool, little: bool): nat
    requires obj.HasDescriptor() && i <= |obj.parts| + 4
  {
    EhdrSize(is32) + Start(Contents(obj, is32, little), i)
  }

  function SectionRecord(obj: Object, i: nat, is32: bool, little: bool): SectionHeader
    requires obj.HasDescriptor() && i < |obj.parts| + 4
  {
    var p, n := SectionPlan(obj, i, is32, little), |obj.parts|;
    SectionHeader(p.nameOffset, p.kind, 0, 0, ContentOffset(obj, i, is32, little), |p.bytes|,
                  if i == n + 1 then n + 2 else 0, 0, 1, p.entsize)
  }

  function SectionHeaders(obj: Object, is32: bool, little: bool): (r: seq<seq<byte>>)
    requires obj.HasDescriptor()
    ensures |r| == |obj.parts| + 4
    ensures forall i | 0 <= i < |r| :: r[i] == SectionRecord(obj, i, is32, little).Bytes(is32, little)
  {
    seq(|obj.parts| + 4, i requires 0 <= i < |obj.parts| + 4 => SectionRecord(obj, i, is32, little).Bytes(is32, little))
  }

  /** The identification of a class and byte order, in version 1. */
  function Ident(is32: bool, little: bool): (r: seq<byte>)
    ensures |r| == 16
  {
    [0x7f] + Ascii("ELF") + [if is32 then 1 else 2, if little then 1 else 2, 1] + [0, 0, 0, 0, 0, 0, 0, 0, 0]
  }

  /** A relocatable file for an Intel machine. */
  function HeaderRecord(obj: Object, is32: bool, little: bool): FileHeader
    requires obj.HasDescriptor()
  {
    var n := |obj.parts| + 4;
    FileHeader(Ident(is32, little), 1, if is32 then 3 else 62, 1, 0, 0, ContentOffset(obj, n, is32, little), 0,
               if is32 then 52 else 64, 0, 0, if is32 then 40 else 64, n, n - 1)
  }

  /** The object as a file of a class and byte order. */
  function ElfFile(obj: Object, is32: bool, little: bool): seq<byte>
    requires obj.HasDescriptor()
  {
    HeaderRecord(obj, is32, little).Bytes(is32, little) +
    Flat(Contents(obj, is32, little)) + Flat(SectionHeaders(obj, is32, little))
  }

  // ---------------------------------------------------------------------------
  // Reading the file back
  // ---------------------------------------------------------------------------

  /** The section numbers fit 16 bits, and the file stays below 2^31 bytes. */
  predicate Fits(obj: Object, is32: bool, little: bool) {
    && obj.HasDescriptor()
    && |obj.parts| + 4 < 0x1_0000
    && |ElfFile(obj, is32, little)| < 0x8000_0000
  }

  predicate NamesFit(obj: Object) {
    && (forall p | p in obj.parts :: IsName(p.name))
    && (forall y | y in obj.symbols :: IsName(y.name))
  }

  predicate SymbolsFit(obj: Object, is32: bool) {
    forall y | y in obj.symbols :: y.value < Span(Wide(is32)) && y.size < Span(Wide(is32))
  }

  /** The object can be written. */
  predicate Encodable(obj: Object, is32: bool, little: bool) {
    obj.WellFormed() && Fits(obj, is32, little) && NamesFit(obj) && SymbolsFit(obj, is32)
  }

  lemma Spans()
    ensures Span(1) == 0x100 && Span(2) == 0x1_0000 && Span(4) == 0x1_0000_0000 && Span(8) == 0x1_0000_0000_0000_0000
  {
    assert Span(0) == 1 && Span(1) == 256;
    assert Span(3) == 256 * Span(2) && Span(5) == 256 * Span(4) && Span(6) == 256 * Span(5) && Span(7) == 256 * Span(6);
  }

  lemma LocatedParts(a: seq<byte>, b: seq<byte>, c: seq<byte>)
    ensures Located(a + b + c, 0, a) && Located(a + b + c, |a|, b) && Located(a + b + c, |a| + |b|, c)
  {
  }

  function HeadersOffset(obj: Object, is32: bool, little: bool): nat
    requires obj.HasDescriptor()
  {
    ContentOffset(obj, |obj.parts| + 4, is32, little)
  }

  lemma SectionSizes(obj: Object, is32: bool, little: bool)
    requires obj.HasDescriptor()
    ensures |HeaderRecord(obj, is32, little).Bytes(is32, little)| == EhdrSize(is32)
    ensures forall i | 0 <= i < |obj.parts| + 4 :: |SectionHeaders(obj, is32, little)[i]| == ShdrSize(is32)
  {
    hide ContentOffset, SectionPlan, RecordBytes;
    FileHeaderSize(HeaderRecord(obj, is32, little), is32, little);
    forall i | 0 <= i < |obj.parts| + 4 ensures |SectionHeaders(obj, is32, little)[i]| == ShdrSize(is32) {
      SectionHeaderSize(SectionRecord(obj, i, is32, little), is32, little);
    }
  }

  /** Where the pieces of the file are: the file header, the contents, and the section headers. */
  lemma HeaderPiece(obj: Object, is32: bool, little: bool)
    requires obj.HasDescriptor()
    ensures Located(ElfFile(obj, is32, little), 0, HeaderRecord(obj, is32, little).Bytes(is32, little))
  {
    hide Flat, SectionPlan, HeaderRecord, SectionRecord, EhdrSize, ShdrSize, Located, RecordBytes;
    SectionSizes(obj, is32, little);
    LaidOut(HeaderRecord(obj, is32, little).Bytes(is32, little), Contents(obj, is32, little),
            SectionHeaders(obj, is32, little), 0, ShdrSize(is32));
  }

  lemma ContentPiece(obj: Object, is32: bool, little: bool, i: nat)
    requires obj.HasDescriptor() && i < |obj.parts| + 4
    ensures Located(ElfFile(obj, is32, little), ContentOffset(obj, i, is32, little), SectionPlan(obj, i, is32, little).bytes)
  {
    hide Flat, SectionPlan, HeaderRecord, SectionRecord, EhdrSize, ShdrSize, Located, RecordBytes;
    SectionSizes(obj, is32, little);
    LaidOut(HeaderRecord(obj, is32, little).Bytes(is32, little), Contents(obj, is32, little),
            SectionHeaders(obj, is32, little), i, ShdrSize(is32));
  }

  lemma RecordPiece(obj: Object, is32: bool, little: bool, i: nat)
    requires obj.HasDescriptor() && i < |obj.parts| + 4
    ensures Located(ElfFile(obj, is32, little), HeadersOffset(obj, is32, little) + i * ShdrSize(is32),
                    SectionRecord(obj, i, is32, little).Bytes(is32, little))
  {
    hide Flat, SectionPlan, HeaderRecord, SectionRecord, EhdrSize, ShdrSize, Located, RecordBytes;
    SectionSizes(obj, is32, little);
    var c := Contents(obj, is32, little);
    LaidOut(HeaderRecord(obj, is32, little).Bytes(is32, little), c,
            SectionHeaders(obj, is32, little), i, ShdrSize(is32));
    assert c[..|c|] == c;
  }

  lemma LaidOut(a: seq<byte>, c: seq<seq<byte>>, h: seq<seq<byte>>, i: nat, width: nat)
    requires i < |c| && i < |h| && forall k | 0 <= k < |h| :: |h[k]| == width
    ensures Located(a + Flat(c) + Flat(h), 0, a)
    ensures Located(a + Flat(c) + Flat(h), |a| + Start(c, i), c[i])
    ensures Located(a + Flat(c) + Flat(h), |a| + |Flat(c)| + i * width, h[i])
  {
    hide Flat;
    LocatedParts(a, Flat(c), Flat(h));
    PieceAt(c, i);
    PieceAt(h, i);
    UniformStart(h, i, width);
    LocatedInside(a + Flat(c) + Flat(h), |a|, Flat(c), Start(c, i), c[i]);
    LocatedInside(a + Flat(c) + Flat(h), |a| + |Flat(c)|, Flat(h), i * width, h[i]);
  }

  /** The accepted header of the file. */
  function ElfOf(obj: Object, is32: bool, little: bool): Elf
    requires obj.HasDescriptor()
  {
    var n := |obj.parts| + 4;
    Elf(ElfFile(obj, is32, little), is32, little, HeadersOffset(obj, is32, little), ShdrSize(is32), n, n - 1)
  }

  lemma HeadersOffsetInFile(obj: Object, is32: bool, little: bool)
    requires obj.HasDescriptor()
    ensures HeadersOffset(obj, is32, little) <= |ElfFile(obj, is32, little)|
  {
    hide HeaderRecord, SectionRecord, RecordBytes, Flat, SectionPlan;
    SectionSizes(obj, is32, little);
    var c := Contents(obj, is32, little);
    assert c[..|c|] == c;
  }

  lemma KnownValues(is32: bool)
    ensures 1 in KNOWN_TYPES && (if is32 then 3 else 62) in KNOWN_MACHINES
  {
    hide KNOWN_MACHINES, KNOWN_TYPES, Range;
    KnownMachines(if is32 then 3 else 62);
    KnownMachines(1);
  }

  lemma HeaderFits(obj: Object, is32: bool, little: bool)
    requires Fits(obj, is32, little)
    ensures MembersFit(HeaderRecord(obj, is32, little).Members(is32))
  {
    hide ElfFile, ContentOffset, Object.HasDescriptor, Span;
    Spans();
    HeadersOffsetInFile(obj, is32, little);
  }

  lemma FileOpens(obj: Object, is32: bool, little: bool)
    requires Fits(obj, is32, little)
    ensures Open(ElfFile(obj, is32, little)) == Some(ElfOf(obj, is32, little))
  {
    hide ElfFile, FieldAt, ContentOffset, Object.HasDescriptor, KNOWN_MACHINES, KNOWN_TYPES, MembersFit, Located;
    var f, h := ElfFile(obj, is32, little), HeaderRecord(obj, is32, little);
    HeaderFits(obj, is32, little);
    HeaderPiece(obj, is32, little);
    SectionSizes(obj, is32, little);
    InFile(f, 0, h.Bytes(is32, little));
    FileHeaderRead(f, h, is32, little);
    IdentRead(f, is32, little);
    KnownValues(is32);
  }

  lemma IdentRead(f: seq<byte>, is32: bool, little: bool)
    requires |f| >= 16 && f[..16] == Ident(is32, little)
    ensures IdentOk(f) && (f[EI_CLASS] == ELFCLASS32 <==> is32) && (f[EI_DATA] == ELFDATA2LSB <==> little)
  {
    var id := Ident(is32, little);
    assert f[..4] == id[..4] == MAGIC;
    assert f[4] == id[4] && f[5] == id[5] && f[6] == id[6];
  }

  lemma NameOffsetInTable(names: seq<seq<byte>>, k: nat)
    requires k < |names|
    ensures 0 < NameOffset(names, k) < |StringTable(names)|
  {
    hide Flat;
    PieceAt(Terminated(names), k);
  }

  /** The numbers of a section header fit their fields. */
  lemma PlanFits(obj: Object, is32: bool, little: bool, i: nat)
    requires Fits(obj, is32, little) && i < |obj.parts| + 4
    ensures
      var p := SectionPlan(obj, i, is32, little);
      && p.nameOffset < 0x8000_0000 && p.kind < 16 && p.entsize < 32
      && EhdrSize(is32) <= ContentOffset(obj, i, is32, little)
      && ContentOffset(obj, i, is32, little) + |p.bytes| < 0x8000_0000
      && (i == 0 <==> p.nameOffset == 0)
  {
    hide ElfFile, ContentOffset, Object.FileBytes, Flat, StringTable, NameOffset;
    var n := |obj.parts|;
    ContentPiece(obj, is32, little, i);
    ContentPiece(obj, is32, little, n + 3);
    assert EhdrSize(is32) <= ContentOffset(obj, i, is32, little) by { ContentAfterHeader(obj, i, is32, little); }
    if i > 0 {
      NameOffsetInTable(SectionNames(obj), i - 1);
    }
  }

  lemma ContentAfterHeader(obj: Object, i: nat, is32: bool, little: bool)
    requires obj.HasDescriptor() && i <= |obj.parts| + 4
    ensures EhdrSize(is32) <= ContentOffset(obj, i, is32, little)
  {
  }

  lemma SectionPlace(obj: Object, is32: bool, little: bool, i: nat)
    requires Fits(obj, is32, little) && i < |obj.parts| + 4
    ensures
      var e := ElfOf(obj, is32, little);
      SectionPos(e, i) == HeadersOffset(obj, is32, little) + i * ShdrSize(is32) && SectionReadable(e, i)
  {
    hide ElfFile, HeadersOffset, SectionPlan, SectionRecord, RecordBytes, Object.HasDescriptor;
    HeadersOffsetInFile(obj, is32, little);
    RecordPiece(obj, is32, little, i);
    SectionHeaderSize(SectionRecord(obj, i, is32, little), is32, little);
  }

  /** The section headers read back as planned. */
  lemma SectionFieldsRead(obj: Object, is32: bool, little: bool, i: nat)
    requires Fits(obj, is32, little) && i < |obj.parts| + 4
    ensures
      var e, p := ElfOf(obj, is32, little), SectionPlan(obj, i, is32, little);
      && SectionField(e, i, ShName(is32)) == p.nameOffset
      && SectionField(e, i, ShType(is32)) == p.kind
      && SectionField(e, i, ShOffset(is32)) == ContentOffset(obj, i, is32, little)
      && SectionField(e, i, ShSize(is32)) == |p.bytes|
      && SectionField(e, i, ShEntsize(is32)) == p.entsize
  {
    hide ElfFile, HeadersOffset, ContentOffset, SectionPlan, FieldAt, Object.HasDescriptor, SectionPos, MembersFit, Located;
    SectionFits(obj, is32, little, i);
    SectionPlace(obj, is32, little, i);
    RecordPiece(obj, is32, little, i);
    SectionHeaderRead(ElfFile(obj, is32, little), HeadersOffset(obj, is32, little) + i * ShdrSize(is32),
                      SectionRecord(obj, i, is32, little), is32, little);
  }

  lemma SectionFits(obj: Object, is32: bool, little: bool, i: nat)
    requires Fits(obj, is32, little) && i < |obj.parts| + 4
    ensures MembersFit(SectionRecord(obj, i, is32, little).Members(is32))
  {
    hide ElfFile, ContentOffset, SectionPlan, Object.HasDescriptor, Span;
    Spans();
    PlanFits(obj, is32, little, i);
  }

  lemma SectionNameIsName(obj: Object, i: nat)
    requires NamesFit(obj) && i < |obj.parts| + 3
    ensures IsName(SectionNames(obj)[i])
  {
    assert i < |obj.parts| ==> obj.parts[i] in obj.parts;
  }

  lemma PlannedNames(obj: Object, is32: bool, little: bool, i: nat)
    requires obj.HasDescriptor() && 0 < i < |obj.parts| + 4
    ensures SectionPlan(obj, i, is32, little).nameOffset == NameOffset(SectionNames(obj), i - 1)
    ensures SectionPlan(obj, |obj.parts| + 3, is32, little).bytes == StringTable(SectionNames(obj))
  {
  }

  lemma NamesOffsetRead(obj: Object, is32: bool, little: bool)
    requires Fits(obj, is32, little)
    ensures NamesAt(ElfOf(obj, is32, little)) == ContentOffset(obj, |obj.parts| + 3, is32, little) > 0
  {
    hide ElfFile, SectionPlan, ContentOffset, SectionField, Object.HasDescriptor, HeadersOffset;
    SectionFieldsRead(obj, is32, little, |obj.parts| + 3);
    PlanFits(obj, is32, little, |obj.parts| + 3);
  }

  lemma SectionNameRead(obj: Object, is32: bool, little: bool, i: nat)
    requires Fits(obj, is32, little) && NamesFit(obj) && i < |obj.parts| + 4
    ensures
      var e := ElfOf(obj, is32, little);
      && (HasName(e, i) <==> i > 0)
      && (i > 0 ==> StringFits(e.src, NamePos(e, i)) && StringAt(e.src, NamePos(e, i)) == SectionNames(obj)[i - 1])
  {
    hide ElfFile, NamesFit, SectionPlan, SectionNames, ContentOffset, SectionField, Object.HasDescriptor, Flat;
    hide StringTable, NameOffset, StringAt, StringFits, HeadersOffset, IsName, Located, NamesAt, SectionPos;
    var e, n, names := ElfOf(obj, is32, little), |obj.parts|, SectionNames(obj);
    SectionFieldsRead(obj, is32, little, i);
    PlanFits(obj, is32, little, i);
    NamesOffsetRead(obj, is32, little);
    if i > 0 {
      SectionNameIsName(obj, i - 1);
      PlannedNames(obj, is32, little, i);
      ContentPiece(obj, is32, little, n + 3);
      NameRead(e.src, NamesAt(e), names, i - 1);
    }
  }

  /** What the translator makes of the section at an index. */
  lemma SectionRead(obj: Object, is32: bool, little: bool, i: nat)
    requires Fits(obj, is32, little) && NamesFit(obj) && i < |obj.parts| + 4
    ensures
      var e, p := ElfOf(obj, is32, little), SectionPlan(obj, i, is32, little);
      SectionAt(e, i) == Section(if i == 0 then None else Some(SectionNames(obj)[i - 1]),
                                 p.kind, ContentOffset(obj, i, is32, little), |p.bytes|, p.entsize)
  {
    hide ElfFile, NamesFit, SectionPlan, SectionNames, ContentOffset, SectionField, Object.HasDescriptor, HasName;
    hide NamePos, StringAt, HeadersOffset, Fits;
    SectionNameRead(obj, is32, little, i);
    SectionFieldsRead(obj, is32, little, i);
  }

  // ---------------------------------------------------------------------------
  // Reading the symbols back
  // ---------------------------------------------------------------------------

  /** The tables that the section pass finds in the file. */
  function FileTables(obj: Object, is32: bool, little: bool): Tables
    requires obj.HasDescriptor()
  {
    var n := |obj.parts|;
    Tables(ContentOffset(obj, n + 2, is32, little), ContentOffset(obj, n + 1, is32, little) + SymSize(is32),
           |obj.symbols|, SymSize(is32))
  }

  lemma TablePlans(obj: Object, is32: bool, little: bool)
    requires obj.HasDescriptor()
    ensures
      var n := |obj.parts|;
      && SectionPlan(obj, n + 1, is32, little).bytes == Flat(SymbolEntries(obj, is32, little))
      && SectionPlan(obj, n + 1, is32, little).kind == SHT_SYMTAB
      && SectionPlan(obj, n + 1, is32, little).entsize == SymSize(is32)
      && SectionPlan(obj, n + 2, is32, little).bytes == StringTable(SymbolNames(obj))
      && SectionPlan(obj, n + 2, is32, little).kind == SHT_STRTAB
  {
  }

  lemma EntrySizes(obj: Object, is32: bool, little: bool)
    ensures forall i | 0 <= i < |obj.symbols| + 1 :: |SymbolEntries(obj, is32, little)[i]| == SymSize(is32)
  {
    hide SymbolRecord, RecordBytes;
    forall i | 0 <= i < |obj.symbols| + 1 ensures |SymbolEntries(obj, is32, little)[i]| == SymSize(is32) {
      SymbolEntrySize(SymbolRecord(obj, i), is32, little);
    }
  }

  lemma SymbolTableSize(obj: Object, is32: bool, little: bool)
    ensures |Flat(SymbolEntries(obj, is32, little))| == (|obj.symbols| + 1) * SymSize(is32)
  {
    hide SymbolRecord, SymSize, RecordBytes;
    EntrySizes(obj, is32, little);
    var entries := SymbolEntries(obj, is32, little);
    UniformStart(entries, |entries|, SymSize(is32));
    assert entries[..|entries|] == entries;
  }

  lemma SymbolPlace(obj: Object, is32: bool, little: bool, i: nat)
    requires Fits(obj, is32, little) && i < |obj.symbols|
    ensures
      var e, t := ElfOf(obj, is32, little), FileTables(obj, is32, little);
      && SymbolPos(t, i) == ContentOffset(obj, |obj.parts| + 1, is32, little) + (i + 1) * SymSize(is32)
      && Located(e.src, SymbolPos(t, i), SymbolRecord(obj, i + 1).Bytes(is32, little))
  {
    hide ElfFile, ContentOffset, SectionPlan, SymbolRecord, RecordBytes, Flat, SymSize, Located, Object.HasDescriptor;
    hide SymbolPos;
    EntrySizes(obj, is32, little);
    var f, entries, n := ElfFile(obj, is32, little), SymbolEntries(obj, is32, little), |obj.parts|;
    var at, w := ContentOffset(obj, n + 1, is32, little), SymSize(is32);
    TablePlans(obj, is32, little);
    ContentPiece(obj, is32, little, n + 1);
    EntryLocated(f, at, entries, i + 1, w);
    InFile(f, at + (i + 1) * w, entries[i + 1]);
    SymbolPosIs(FileTables(obj, is32, little), at, w, i);
  }

  lemma SymbolPosIs(t: Tables, at: nat, w: nat, i: nat)
    requires t.symtab == at + w && t.entsize == w && at + (i + 1) * w < 0x8000_0000
    ensures SymbolPos(t, i) == at + (i + 1) * w
  {
    assert w + i * w == (i + 1) * w;
  }

  lemma EntryLocated(s: seq<byte>, at: nat, pieces: seq<seq<byte>>, k: nat, width: nat)
    requires Located(s, at, Flat(pieces)) && k < |pieces|
    requires forall i | 0 <= i < |pieces| :: |pieces[i]| == width
    ensures Located(s, at + k * width, pieces[k])
  {
    hide Flat;
    PieceAt(pieces, k);
    UniformStart(pieces, k, width);
    LocatedInside(s, at, Flat(pieces), Start(pieces, k), pieces[k]);
  }

  lemma InFile(s: seq<byte>, at: nat, piece: seq<byte>)
    requires Located(s, at, piece)
    ensures at + |piece| <= |s|
  {
  }

  lemma SymbolFits(obj: Object, is32: bool, i: nat)
    requires |obj.parts| + 4 < 0x1_0000 && SymbolsFit(obj, is32) && i < |obj.symbols|
    requires NameOffset(SymbolNames(obj), i) < 0x8000_0000
    ensures MembersFit(SymbolRecord(obj, i + 1).Members(is32))
  {
    hide NameOffset, Span;
    Spans();
    assert obj.symbols[i] in obj.symbols;
  }

  lemma SymbolFieldsRead(obj: Object, is32: bool, little: bool, i: nat)
    requires Fits(obj, is32, little) && SymbolsFit(obj, is32) && i < |obj.symbols|
    requires NameOffset(SymbolNames(obj), i) < 0x8000_0000
    ensures
      var e, t, y := ElfOf(obj, is32, little), FileTables(obj, is32, little), obj.symbols[i];
      && SymbolField(e, t, i, StName(is32)) == NameOffset(SymbolNames(obj), i)
      && SymbolField(e, t, i, StValue(is32)) == y.value
      && SymbolField(e, t, i, StSize(is32)) == y.size
      && SymbolField(e, t, i, StShndx(is32)) == if y.shndx < |obj.parts| then y.shndx + 1 else 0
  {
    hide FileTables, NameOffset, Object.HasDescriptor, ElfFile, FieldAt, SymbolPos, MembersFit, Located, SymbolsFit;
    SymbolFits(obj, is32, i);
    SymbolPlace(obj, is32, little, i);
    SymbolEntryRead(ElfFile(obj, is32, little), SymbolPos(FileTables(obj, is32, little), i),
                    SymbolRecord(obj, i + 1), is32, little);
  }

  /** Where the object's sections are in the file. */
  function Places(obj: Object): (r: seq<nat>)
    ensures |r| == |obj.parts|
    ensures forall k | 0 <= k < |r| :: r[k] == k + 1
  {
    seq(|obj.parts|, k requires 0 <= k < |obj.parts| => k + 1)
  }

  lemma SymbolRead(obj: Object, is32: bool, little: bool, i: nat)
    requires Fits(obj, is32, little) && SymbolsFit(obj, is32) && NamesFit(obj) && i < |obj.symbols|
    ensures
      var e, t := ElfOf(obj, is32, little), FileTables(obj, is32, little);
      && StringFits(e.src, SymbolNamePos(e, t, i))
      && SameSymbol(SymbolAt(e, t, i), obj.symbols[i], Places(obj))
  {
    hide ElfFile, ContentOffset, SectionPlan, Flat, StringTable, NameOffset, StringAt, StringFits, IsName, Located;
    hide SymbolField, Object.HasDescriptor;
    var f, names, at := ElfFile(obj, is32, little), SymbolNames(obj), ContentOffset(obj, |obj.parts| + 2, is32, little);
    assert obj.symbols[i] in obj.symbols;
    TablePlans(obj, is32, little);
    ContentPiece(obj, is32, little, |obj.parts| + 2);
    InFile(f, at, StringTable(names));
    NameRead(f, at, names, i);
    SymbolFieldsRead(obj, is32, little, i);
  }

  // ---------------------------------------------------------------------------
  // The file encodes the object
  // ---------------------------------------------------------------------------

  lemma FileSectionsWellFormed(obj: Object, is32: bool, little: bool)
    requires Fits(obj, is32, little) && NamesFit(obj)
    ensures SectionsWellFormed(ElfOf(obj, is32, little))
  {
    hide ElfFile, SectionPlan, SectionReadable, StringFits, HasName, NamePos, SectionAt, NamesFit;
    hide Object.HasDescriptor, HeadersOffset;
    var e := ElfOf(obj, is32, little);
    HeadersOffsetInFile(obj, is32, little);
    forall i: nat | i < |obj.parts| + 4
      ensures SectionReadable(e, i) && (HasName(e, i) ==> StringFits(e.src, NamePos(e, i)))
    {
      SectionPlace(obj, is32, little, i);
      SectionNameRead(obj, is32, little, i);
    }
  }

  lemma PlanKinds(obj: Object, is32: bool, little: bool, i: nat)
    requires obj.HasDescriptor() && i < |obj.parts| + 4
    ensures SectionPlan(obj, i, is32, little).kind == SHT_SYMTAB <==> i == |obj.parts| + 1
    ensures SectionPlan(obj, i, is32, little).kind == SHT_STRTAB <==> i == |obj.parts| + 2 || i == |obj.parts| + 3
  {
  }

  lemma FileSymbolTable(obj: Object, is32: bool, little: bool)
    requires Fits(obj, is32, little) && NamesFit(obj)
    ensures SymbolTableAt(ElfOf(obj, is32, little), Sections(ElfOf(obj, is32, little), |obj.parts| + 4),
                          |obj.parts| + 1, |obj.symbols|)
  {
    hide ElfFile, NamesFit, SectionPlan, SectionNames, ContentOffset, Object.HasDescriptor, HeadersOffset;
    hide SectionAt, Flat, EhdrSize, SymSize, Located;
    var e, n := ElfOf(obj, is32, little), |obj.parts|;
    var s := Sections(e, n + 4);
    forall j | 0 <= j < n + 4 ensures IsSymbolTable(s[j]) <==> j == n + 1 {
      SectionRead(obj, is32, little, j);
      PlanKinds(obj, is32, little, j);
    }
    SectionRead(obj, is32, little, n + 1);
    PlanFits(obj, is32, little, n + 1);
    TablePlans(obj, is32, little);
    SymbolTableSize(obj, is32, little);
    ContentPiece(obj, is32, little, n + 1);
    InFile(e.src, ContentOffset(obj, n + 1, is32, little), SectionPlan(obj, n + 1, is32, little).bytes);
  }

  lemma FileStringTable(obj: Object, is32: bool, little: bool)
    requires Fits(obj, is32, little) && NamesFit(obj)
    ensures StringTableAt(Sections(ElfOf(obj, is32, little), |obj.parts| + 4), |obj.parts| + 3, |obj.parts| + 2)
  {
    hide ElfFile, NamesFit, SectionPlan, ContentOffset, Object.HasDescriptor, HeadersOffset, SectionAt;
    var e, n := ElfOf(obj, is32, little), |obj.parts|;
    var s := Sections(e, n + 4);
    forall j | 0 <= j < n + 4
      ensures s[j].offset > 0 && (IsDotStrtab(s[j]) <==> j == n + 2)
    {
      SectionRead(obj, is32, little, j);
      PlanKinds(obj, is32, little, j);
      PlanFits(obj, is32, little, j);
      assert |Ascii(".shstrtab")| != |STRTAB_NAME|;
    }
  }

  lemma FilePart(obj: Object, is32: bool, little: bool, k: nat)
    requires Fits(obj, is32, little) && NamesFit(obj) && k < |obj.parts|
    ensures PartEncoded(ElfOf(obj, is32, little), SectionAt(ElfOf(obj, is32, little), k + 1), obj, k)
  {
    hide ElfFile, NamesFit, ContentOffset, Object.HasDescriptor, Object.FileBytes, HeadersOffset, SectionAt;
    hide NameOffset, StringTable, Flat;
    SectionRead(obj, is32, little, k + 1);
    PlanFits(obj, is32, little, k + 1);
    ContentPiece(obj, is32, little, k + 1);
  }

  lemma FileParts(obj: Object, is32: bool, little: bool)
    requires Fits(obj, is32, little) && NamesFit(obj)
    ensures PartsEncoded(ElfOf(obj, is32, little), Sections(ElfOf(obj, is32, little), |obj.parts| + 4), obj, Places(obj))
  {
    hide ElfFile, NamesFit, Object.HasDescriptor, SectionAt, PartEncoded, HeadersOffset;
    var e, place := ElfOf(obj, is32, little), Places(obj);
    var s := Sections(e, |obj.parts| + 4);
    forall k | 0 <= k < |place| ensures place[k] < |s| && PartEncoded(e, s[place[k]], obj, k) {
      FilePart(obj, is32, little, k);
    }
  }

  lemma FileSymbols(obj: Object, is32: bool, little: bool)
    requires Fits(obj, is32, little) && NamesFit(obj) && SymbolsFit(obj, is32)
    ensures SymbolsEncoded(ElfOf(obj, is32, little), FileTables(obj, is32, little), obj, Places(obj))
  {
    hide ElfFile, NamesFit, SymbolsFit, Object.HasDescriptor, ContentOffset, SymbolAt, SymbolNamePos, StringFits;
    hide SameSymbol;
    forall i | 0 <= i < |obj.symbols|
      ensures StringFits(ElfFile(obj, is32, little),
                         SymbolNamePos(ElfOf(obj, is32, little), FileTables(obj, is32, little), i))
           && SameSymbol(SymbolAt(ElfOf(obj, is32, little), FileTables(obj, is32, little), i), obj.symbols[i], Places(obj))
    {
      SymbolRead(obj, is32, little, i);
    }
  }

  lemma FileTablesAt(obj: Object, is32: bool, little: bool)
    requires Fits(obj, is32, little) && NamesFit(obj)
    ensures
      var e, n := ElfOf(obj, is32, little), |obj.parts|;
      TablesAt(e, SectionAt(e, n + 2), SectionAt(e, n + 1), |obj.symbols|) == FileTables(obj, is32, little)
  {
    hide ElfFile, NamesFit, Object.HasDescriptor, ContentOffset, SectionAt, SectionPlan, HeadersOffset;
    SectionRead(obj, is32, little, |obj.parts| + 1);
    SectionRead(obj, is32, little, |obj.parts| + 2);
  }

  /** The file encodes the object: every object that fits has an encoding of each class and byte order. */
  lemma FileEncodes(obj: Object, is32: bool, little: bool)
    requires Encodable(obj, is32, little)
    ensures Encodes(ElfFile(obj, is32, little), obj, Places(obj), |obj.parts| + 1, |obj.parts| + 2)
  {
    hide ElfFile, NamesFit, SymbolsFit, Object.HasDescriptor, HeadersOffset, SectionAt, Open, FileTables, TablesAt;
    hide SymbolTableAt, SectionsWellFormed, StringTableAt, SymbolsEncoded, PartsEncoded;
    hide Encodable, Fits, Object.WellFormed, Sections;
    EncodableObject(obj, is32, little);
    FileOpens(obj, is32, little);
    FileSectionsWellFormed(obj, is32, little);
    FileSymbolTable(obj, is32, little);
    FileStringTable(obj, is32, little);
    FileTablesAt(obj, is32, little);
    FileSymbols(obj, is32, little);
    FileParts(obj, is32, little);
  }

  lemma EncodableObject(obj: Object, is32: bool, little: bool)
    requires Encodable(obj, is32, little)
    ensures obj.WellFormed() && obj.HasDescriptor()
    ensures Fits(obj, is32, little) && NamesFit(obj) && SymbolsFit(obj, is32)
  {
  }

  /**
   * Round trip: encoding an object as ELF32 or ELF64, in either byte order, and running the translator on the
   * file gives the image of the object.
   */
  lemma EncodedThenTranslated(obj: Object, is32: bool, little: bool, o: Options)
    requires Encodable(obj, is32, little) && o.Valid()
    ensures Safe(ElfFile(obj, is32, little)) && Run(ElfFile(obj, is32, little), o) == Image(obj, o)
  {
    hide Encodable, ElfFile, Encodes, Run, Safe, Image, Places, Fits, NamesFit, SymbolsFit;
    hide Object.WellFormed, Object.HasDescriptor, Options.Valid;
    EncodableObject(obj, is32, little);
    FileEncodes(obj, is32, little);
    EncodingTranslates(ElfFile(obj, is32, little), obj, Places(obj), |obj.parts| + 1, |obj.parts| + 2, o);
  }
}
