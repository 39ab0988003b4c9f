/**
 * What the translator makes of a source file, stated on the file's bytes alone: every field is
 * decoded directly in the order e_ident names, and neither the host nor the Verbose flag appears.
 */
module ElfSpec {
  import opened Common
  import opened Bytes
  import opened ElfLayout

  /** The unsigned integer in a field of a record that starts at a file position; 0 outside the file. */
  function FieldAt(src: seq<byte>, little: bool, at: int, f: Field): nat {
    if 0 <= at && at + f.at + f.width <= |src| then Decode(src[at + f.at..at + f.at + f.width], little) else 0
  }

  predicate Holds(src: seq<byte>, at: int, size: nat) {
    0 <= at && at + size <= |src|
  }

  // ---------------------------------------------------------------------------
  // C integer conversions
  // ---------------------------------------------------------------------------

  function UInt32(v: int): nat { v % 0x1_0000_0000 }

  function UInt64(v: int): nat { v % 0x1_0000_0000_0000_0000 }

  function Int32(v: int): int {
    if UInt32(v) < 0x8000_0000 then UInt32(v) else UInt32(v) - 0x1_0000_0000
  }

  function Int64(v: int): int {
    if UInt64(v) < 0x8000_0000_0000_0000 then UInt64(v) else UInt64(v) - 0x1_0000_0000_0000_0000
  }

  /** A conversion takes away a multiple of the type's modulus and lies in the range of the type. */
  lemma Conversions(v: int)
    ensures 0 <= UInt32(v) < 0x1_0000_0000 && v == UInt32(v) + 0x1_0000_0000 * (v / 0x1_0000_0000)
    ensures -0x8000_0000 <= Int32(v) < 0x8000_0000
    ensures Int32(v) == UInt32(v) || Int32(v) == UInt32(v) - 0x1_0000_0000
  {
  }

  lemma WideConversions(v: int)
    ensures 0 <= UInt64(v) < 0x1_0000_0000_0000_0000
    ensures v == UInt64(v) + 0x1_0000_0000_0000_0000 * (v / 0x1_0000_0000_0000_0000)
    ensures -0x8000_0000_0000_0000 <= Int64(v) < 0x8000_0000_0000_0000
    ensures Int64(v) == UInt64(v) || Int64(v) == UInt64(v) - 0x1_0000_0000_0000_0000
  {
  }

  // ---------------------------------------------------------------------------
  // File header
  // ---------------------------------------------------------------------------

  const MAGIC: seq<byte> := [0x7f, 0x45, 0x4c, 0x46]

  function Range(first: nat, last: nat): (r: seq<int>)
    requires first <= last
    ensures forall v :: v in r <==> first <= v <= last
  {
    if first == last then [last] else Range(first, last - 1) + [last]
  }

  const KNOWN_TYPES: seq<int> := Range(0, 4)

  const KNOWN_MACHINES: seq<int> :=
    Range(0, 5) + Range(7, 10) + [15] + Range(17, 23) + Range(36, 120) + Range(131, 144) + Range(160, 171) +
    Range(173, 181) + [183] + Range(185, 224) + [243]

  predicate IdentOk(src: seq<byte>) {
    && |src| >= EI_NIDENT
    && src[..4] == MAGIC
    && (src[EI_CLASS] == ELFCLASS32 || src[EI_CLASS] == ELFCLASS64)
    && (src[EI_DATA] == ELFDATA2LSB || src[EI_DATA] == ELFDATA2MSB)
    && src[EI_VERSION] == EV_CURRENT
  }

  /** An accepted file: its bytes, class and byte order, and where its section headers are. */
  datatype Elf = Elf(src: seq<byte>, is32: bool, little: bool, shoff: nat, shentsize: nat, shnum: nat, shstrndx: nat)

  function HeaderOf(src: seq<byte>, is32: bool, little: bool): Elf {
    Elf(src, is32, little, FieldAt(src, little, 0, EShoff(is32)), FieldAt(src, little, 0, EShentsize(is32)),
        FieldAt(src, little, 0, EShnum(is32)), FieldAt(src, little, 0, EShstrndx(is32)))
  }

  /** The checks on the file header after e_ident. */
  predicate HeaderAccepted(src: seq<byte>, is32: bool, little: bool) {
    && Holds(src, 0, EhdrSize(is32))
    && FieldAt(src, little, 0, EType(is32)) in KNOWN_TYPES
    && FieldAt(src, little, 0, EMachine(is32)) in KNOWN_MACHINES
    && FieldAt(src, little, 0, EVersion(is32)) == EV_CURRENT
  }

  /** The file header, when every check on it succeeds. */
  function Open(src: seq<byte>): Option<Elf> {
    if !IdentOk(src) then None else
      var is32, little := src[EI_CLASS] == ELFCLASS32, src[EI_DATA] == ELFDATA2LSB;
      if HeaderAccepted(src, is32, little) then Some(HeaderOf(src, is32, little)) else None
  }

  // ---------------------------------------------------------------------------
  // Section headers
  // ---------------------------------------------------------------------------

  function SectionPos(e: Elf, i: nat): int {
    Int64(e.shoff) + i * e.shentsize
  }

  predicate SectionReadable(e: Elf, i: nat) {
    Holds(e.src, SectionPos(e, i), ShdrSize(e.is32))
  }

  function SectionField(e: Elf, i: nat, f: Field): nat {
    FieldAt(e.src, e.little, SectionPos(e, i), f)
  }

  /** Where the section names are: the offset of the section that e_shstrndx selects. */
  function NamesAt(e: Elf): int {
    Int64(SectionField(e, e.shstrndx, ShOffset(e.is32)))
  }

  /** A section; one without a usable name is passed over. */
  datatype Section = Section(name: Option<seq<byte>>, kind: nat, offset: nat, size: nat, entsize: nat)

  function StringAt(src: seq<byte>, at: int): seq<byte> {
    if 0 <= at <= |src| then CString(src, at) else []
  }

  const NAME_SIZE := 60

  /** A string that starts in the file and ends within the name buffer. */
  predicate StringFits(src: seq<byte>, at: int) {
    0 <= at && at + |StringAt(src, at)| < |src| && |StringAt(src, at)| < NAME_SIZE
  }

  predicate HasName(e: Elf, i: nat) {
    NamesAt(e) != 0 && SectionField(e, i, ShName(e.is32)) != 0
  }

  /** Where a section's name is read; a seek to a negative offset fails and leaves the position after the header. */
  function NamePos(e: Elf, i: nat): int {
    var at := NamesAt(e) + SectionField(e, i, ShName(e.is32));
    if at >= 0 then at else SectionPos(e, i) + ShdrSize(e.is32)
  }

  function SectionAt(e: Elf, i: nat): Section {
    Section(if HasName(e, i) then Some(StringAt(e.src, NamePos(e, i))) else None,
            SectionField(e, i, ShType(e.is32)), SectionField(e, i, ShOffset(e.is32)),
            SectionField(e, i, ShSize(e.is32)), SectionField(e, i, ShEntsize(e.is32)))
  }

  ghost function Sections(e: Elf, n: nat): (s: seq<Section>)
    ensures |s| == n
    ensures forall i | 0 <= i < n :: s[i] == SectionAt(e, i)
  {
    seq(n, i requires 0 <= i < n => SectionAt(e, i))
  }

  /** What the section pass leaves behind: both table offsets, the symbol count and the entry size. */
  datatype Tables = Tables(strtab: nat, symtab: int, count: nat, entsize: nat)

  const NO_TABLES := Tables(0, 0, 0, 0)

  const STRTAB_NAME: seq<byte> := [0x2e, 0x73, 0x74, 0x72, 0x74, 0x61, 0x62]

  const BSS_NAME: seq<byte> := [0x2e, 0x62, 0x73, 0x73]

  /** The effect of one section header on the tables. */
  function NoteSection(t: Tables, s: Section, isNames: bool, is32: bool): Tables {
    if s.name.None? then t
    else if s.kind == SHT_SYMTAB then
      Tables(t.strtab, Int32(s.offset + SymSize(is32)),
             if s.entsize == 0 then 0 else UInt64(s.size / s.entsize - 1), s.entsize)
    else if s.kind == SHT_STRTAB && (s.name.value == STRTAB_NAME || (t.strtab == 0 && !isNames)) then
      t.(strtab := s.offset)
    else t
  }

  /** The tables after a pass over section headers; names is the index of the section-name table. */
  function ScanSections(s: seq<Section>, names: nat, is32: bool): Tables {
    if s == [] then NO_TABLES
    else NoteSection(ScanSections(s[..|s| - 1], names, is32), s[|s| - 1], |s| - 1 == names, is32)
  }

  // ---------------------------------------------------------------------------
  // Symbols
  // ---------------------------------------------------------------------------

  datatype Symbol = Symbol(name: seq<byte>, value: nat, size: nat, shndx: nat)

  const DEF_NAME: seq<byte> :=
    [0x43, 0x46, 0x45, 0x5f, 0x54, 0x42, 0x4c, 0x5f, 0x46, 0x69, 0x6c, 0x65, 0x44, 0x65, 0x66]

  function SymbolPos(t: Tables, i: nat): nat {
    UInt64(t.symtab + i * t.entsize)
  }

  predicate SymbolReadable(e: Elf, t: Tables, i: nat) {
    SymbolPos(t, i) < 0x8000_0000 && Holds(e.src, SymbolPos(t, i), SymSize(e.is32))
  }

  function SymbolField(e: Elf, t: Tables, i: nat, f: Field): nat {
    FieldAt(e.src, e.little, SymbolPos(t, i), f)
  }

  /** Where a symbol's name is read: at a truncated offset, or after the entry when that is negative. */
  function SymbolNamePos(e: Elf, t: Tables, i: nat): int {
    var at := Int32(t.strtab + SymbolField(e, t, i, StName(e.is32)));
    if at >= 0 then at else SymbolPos(t, i) + SymSize(e.is32)
  }

  function SymbolAt(e: Elf, t: Tables, i: nat): Symbol {
    Symbol(StringAt(e.src, SymbolNamePos(e, t, i)), SymbolField(e, t, i, StValue(e.is32)),
           SymbolField(e, t, i, StSize(e.is32)), SymbolField(e, t, i, StShndx(e.is32)))
  }

  ghost function Symbols(e: Elf, t: Tables, n: nat): (s: seq<Symbol>)
    ensures |s| == n
    ensures forall i | 0 <= i < n :: s[i] == SymbolAt(e, t, i)
  {
    seq(n, i requires 0 <= i < n => SymbolAt(e, t, i))
  }

  /** The fixed names, as texts. */
  lemma SectionTexts()
    ensures STRTAB_NAME == Ascii(".strtab") && BSS_NAME == Ascii(".bss") && DEF_NAME == Ascii("CFE_TBL_FileDef")
  {
  }

  /** The descriptor symbol may carry one leading character. */
  predicate NamesDescriptor(name: seq<byte>) {
    name == DEF_NAME || (|name| > 0 && name[1..] == DEF_NAME)
  }

  /** The last symbol that names the descriptor, or -1. */
  function LastDescriptor(s: seq<Symbol>): (d: int)
    ensures -1 <= d < |s|
    ensures d >= 0 ==> NamesDescriptor(s[d].name)
    ensures forall i | d < i < |s| :: !NamesDescriptor(s[i].name)
  {
    if s == [] then -1
    else if NamesDescriptor(s[|s| - 1].name) then |s| - 1
    else LastDescriptor(s[..|s| - 1])
  }

  /** A symbol names the object exactly, or with any one character after it. */
  predicate NamesObject(name: seq<byte>, objectName: seq<byte>) {
    objectName <= name && |name| <= |objectName| + 1
  }

  /** The first symbol at or after a position that names the object, or the number of symbols. */
  function FirstObject(s: seq<Symbol>, objectName: seq<byte>, from: nat): (u: nat)
    requires from <= |s|
    ensures from <= u <= |s|
    ensures u < |s| ==> NamesObject(s[u].name, objectName)
    ensures forall i | from <= i < u :: !NamesObject(s[i].name, objectName)
    decreases |s| - from
  {
    if from == |s| || NamesObject(s[from].name, objectName) then from
    else FirstObject(s, objectName, from + 1)
  }

  // ---------------------------------------------------------------------------
  // The table descriptor
  // ---------------------------------------------------------------------------

  const DEF_SIZE := 160
  const OBJECT_NAME := Field(0, 64)
  const TABLE_NAME := Field(64, 40)
  const DESCRIPTION := Field(104, 32)
  const TGT_FILENAME := Field(136, 20)
  const OBJECT_SIZE := Field(156, 4)

  datatype Descriptor = Descriptor(
    objectName: seq<byte>, tableName: seq<byte>, description: seq<byte>, tgtFilename: seq<byte>, objectSize: nat)

  /** A text field as a C string; its last byte is taken to be zero. */
  function Text(s: seq<byte>): (r: seq<byte>)
    requires |s| > 0
    ensures |r| < |s| && 0 !in r
  {
    var t := s[|s| - 1 := 0];
    assert t[|s| - 1] == 0 && 0 in t[0..|t|];
    CString(t, 0)
  }

  function DescriptorOf(s: seq<byte>, little: bool): Descriptor
    requires |s| == DEF_SIZE
  {
    Descriptor(Text(Slice(s, OBJECT_NAME)), Text(Slice(s, TABLE_NAME)), Text(Slice(s, DESCRIPTION)),
               Text(Slice(s, TGT_FILENAME)), Decode(Slice(s, OBJECT_SIZE), little))
  }

  /** Swapping the size field makes the descriptor read in the other byte order as it did before. */
  lemma SwappedDescriptor(s: seq<byte>, little: bool)
    requires |s| == DEF_SIZE
    ensures DescriptorOf(SwapField(s, OBJECT_SIZE), little) == DescriptorOf(s, !little)
  {
    SwapFieldSlices(s, OBJECT_SIZE, OBJECT_NAME);
    SwapFieldSlices(s, OBJECT_SIZE, TABLE_NAME);
    SwapFieldSlices(s, OBJECT_SIZE, DESCRIPTION);
    SwapFieldSlices(s, OBJECT_SIZE, TGT_FILENAME);
    SwapFieldSlices(s, OBJECT_SIZE, OBJECT_SIZE);
    ReverseFlipsOrder(Slice(s, OBJECT_SIZE), little);
  }

  /** The file offset of a symbol's object, in 64-bit arithmetic. */
  function ObjectPos(s: Symbol, home: Section): nat {
    UInt64(home.offset + s.value)
  }

  // ---------------------------------------------------------------------------
  // The table image
  // ---------------------------------------------------------------------------

  /** Command-line options, as the option parser leaves them. Texts are C strings and fit their fields. */
  datatype Options = Options(
    spacecraftId: Option<nat>, processorId: Option<nat>, applicationId: Option<nat>,
    timeTag: Option<int>, tableName: Option<seq<byte>>, description: Option<seq<byte>>, directory: seq<byte>)
  {
    predicate Valid() {
      && (tableName.Some? ==> |tableName.value| < 38 && 0 !in tableName.value)
      && (description.Some? ==> |description.value| < 32 && 0 !in description.value)
    }
  }

  function Padded(text: seq<byte>, n: nat): (r: seq<byte>)
    requires |text| <= n
    ensures |r| == n && r[..|text|] == text
    ensures forall i | |text| <= i < n :: r[i] == 0
  {
    text + seq(n - |text|, _ => 0)
  }

  function Big32(v: int): (s: seq<byte>)
    ensures |s| == 4
  {
    Encode(UInt32(v), 4, false)
  }

  function GetOr<T>(o: Option<T>, default: T): T {
    if o.Some? then o.value else default
  }

  const CONTENT_TYPE := 0x63464531
  const SUBTYPE_TBL_IMG := 8
  const FILE_HEADER_SIZE := 64

  /** The file header and the table header, all integers big-endian. */
  function Headers(o: Options, d: Descriptor, numBytes: nat): (h: seq<byte>)
    requires o.Valid() && |d.tableName| < 40 && |d.description| < 32
    ensures |h| == 116
  {
    Big32(CONTENT_TYPE) + Big32(SUBTYPE_TBL_IMG) + Big32(FILE_HEADER_SIZE) +
    Big32(GetOr(o.spacecraftId, 0)) + Big32(GetOr(o.processorId, 0)) + Big32(GetOr(o.applicationId, 0)) +
    Big32(GetOr(o.timeTag, 0)) + Big32(0) + Padded(GetOr(o.description, d.description), 32) +
    Big32(0) + Big32(0) + Big32(numBytes) + Padded(GetOr(o.tableName, d.tableName), 40)
  }

  /** What reading byte by byte delivers; past the end of the file every byte is 0xFF. */
  function ReadThrough(src: seq<byte>, at: nat, n: nat): (r: seq<byte>)
    ensures |r| == n
    ensures forall i | 0 <= i < n :: r[i] == if at + i < |src| then src[at + i] else 0xFF
  {
    seq(n, i requires 0 <= i < n => if at + i < |src| then src[at + i] else 0xFF)
  }

  /** The size of a stored object: the smaller of the two sizes, unless the symbol has none. */
  function StoredSize(symbolSize: nat, objectSize: nat): nat {
    if symbolSize == 0 || objectSize < symbolSize then objectSize else symbolSize
  }

  /** How a run ends: before the target is opened, after it was opened but before writing, or written. */
  datatype Outcome =
    | Rejected
    | Abandoned(file: seq<byte>)
    | Written(file: seq<byte>, image: seq<byte>)

  function TargetFile(o: Options, d: Descriptor): seq<byte> {
    (if o.directory == [] then [0x2e, 0x2f] else o.directory) + d.tgtFilename
  }

  /** The outcome for the object that a symbol names, given the section it lives in. */
  function Translate(src: seq<byte>, o: Options, d: Descriptor, s: Symbol, home: Section): Outcome
    requires o.Valid() && |d.tableName| < 40 && |d.description| < 32
  {
    if home.name == Some(BSS_NAME) then
      Written(TargetFile(o, d), Headers(o, d, s.size) + seq(s.size, _ => 0))
    else if ObjectPos(s, home) >= 0x1_0000_0000 then
      Abandoned(TargetFile(o, d))
    else
      var n := StoredSize(s.size, d.objectSize);
      Written(TargetFile(o, d), Headers(o, d, n) + ReadThrough(src, ObjectPos(s, home), n))
  }

  // ---------------------------------------------------------------------------
  // A whole run
  // ---------------------------------------------------------------------------

  /** The size of the descriptor symbol is right or absent. */
  predicate DescriptorSized(s: Symbol) {
    s.size == 0 || s.size == DEF_SIZE
  }

  /** The descriptor symbol can be used: its size is right or absent, and its 160 bytes can be read. */
  predicate DescriptorReadable(src: seq<byte>, s: Symbol, home: Section) {
    && DescriptorSized(s)
    && ObjectPos(s, home) < 0x1_0000_0000
    && Holds(src, ObjectPos(s, home), DEF_SIZE)
  }

  function DescriptorAt(src: seq<byte>, little: bool, s: Symbol, home: Section): Descriptor
    requires DescriptorReadable(src, s, home)
  {
    DescriptorOf(src[ObjectPos(s, home)..ObjectPos(s, home) + DEF_SIZE], little)
  }

  /** The position of a section header is computed without signed overflow. */
  predicate SafePosition(e: Elf, i: nat) {
    && i * e.shentsize < 0x8000_0000
    && Int64(e.shoff) + i * e.shentsize < 0x8000_0000_0000_0000
  }

  predicate SafeSection(e: Elf, i: nat) {
    SafePosition(e, i) && (SectionReadable(e, i) && HasName(e, i) ==> StringFits(e.src, NamePos(e, i)))
  }

  ghost predicate SectionsReadTo(e: Elf, n: nat) {
    forall j | 0 <= j < n :: SectionReadable(e, j)
  }

  /** Every section header that the pass comes to is safe. */
  ghost predicate SafeSections(e: Elf) {
    forall i | 0 <= i < e.shnum && SectionsReadTo(e, i) :: SafeSection(e, i)
  }

  predicate SafeSymbol(e: Elf, t: Tables, i: nat) {
    SymbolReadable(e, t, i) ==> StringFits(e.src, SymbolNamePos(e, t, i))
  }

  ghost predicate SymbolsReadTo(e: Elf, t: Tables, n: nat) {
    forall j | 0 <= j < n :: SymbolReadable(e, t, j)
  }

  /** Every symbol that the pass comes to is safe, and symbols can be counted in 31 bits. */
  ghost predicate SafeSymbols(e: Elf, t: Tables) {
    t.count < 0x8000_0000 && forall i | 0 <= i < t.count && SymbolsReadTo(e, t, i) :: SafeSymbol(e, t, i)
  }

  /** The object lives in a named section that exists, and has fewer than 2^31 bytes. */
  predicate SafeObject(sections: seq<Section>, s: Symbol, objectSize: nat) {
    && s.shndx < |sections|
    && sections[s.shndx].name.Some?
    && (if sections[s.shndx].name.value == BSS_NAME then s.size else StoredSize(s.size, objectSize)) < 0x8000_0000
  }

  predicate SafeObjects(src: seq<byte>, little: bool, sections: seq<Section>, symbols: seq<Symbol>) {
    var d := LastDescriptor(symbols);
    d >= 0 && DescriptorSized(symbols[d]) ==>
      && symbols[d].shndx < |sections|
      && var home := sections[symbols[d].shndx];
      DescriptorReadable(src, symbols[d], home) ==>
        var def := DescriptorAt(src, little, symbols[d], home);
        var u := FirstObject(symbols, def.objectName, 0);
        u < |symbols| ==> SafeObject(sections, symbols[u], def.objectSize)
  }

  ghost predicate SectionsReadable(e: Elf) {
    SectionReadable(e, e.shstrndx) && SectionsReadTo(e, e.shnum)
  }

  ghost predicate SymbolsReadable(e: Elf, t: Tables) {
    && t.strtab != 0
    && t.count != 0
    && SymbolsReadTo(e, t, t.count)
  }

  ghost function TablesOf(e: Elf): Tables {
    ScanSections(Sections(e, e.shnum), e.shstrndx, e.is32)
  }

  /**
   * Inputs on which the program, as far as it gets, takes no index out of range, reads no name that runs over
   * its buffer or past the end of the file, and overflows no signed integer. A file that fails a check of the
   * program is judged only by what comes before that check.
   */
  ghost predicate Safe(src: seq<byte>) {
    Open(src).Some? ==>
      var e := Open(src).value;
      && SafePosition(e, e.shstrndx)
      && (SectionReadable(e, e.shstrndx) ==> SafeSections(e))
      && (SectionsReadable(e) && TablesOf(e).strtab != 0 ==> SafeSymbols(e, TablesOf(e)))
      && (SectionsReadable(e) && SymbolsReadable(e, TablesOf(e)) ==>
            SafeObjects(src, e.little, Sections(e, e.shnum), Symbols(e, TablesOf(e), TablesOf(e).count)))
  }

  /** What follows once every section and symbol has been read. */
  function RunObjects(src: seq<byte>, little: bool, sections: seq<Section>, symbols: seq<Symbol>, o: Options): Outcome
    requires o.Valid() && SafeObjects(src, little, sections, symbols)
  {
    var d := LastDescriptor(symbols);
    if d < 0 || !DescriptorSized(symbols[d]) then Rejected else
      var home := sections[symbols[d].shndx];
      if !DescriptorReadable(src, symbols[d], home) then Rejected else
        var def := DescriptorAt(src, little, symbols[d], home);
        var u := FirstObject(symbols, def.objectName, 0);
        if u == |symbols| then Abandoned(TargetFile(o, def))
        else Translate(src, o, def, symbols[u], sections[symbols[u].shndx])
  }

  /** The outcome of a run on a source file: no host and no Verbose flag are involved. */
  ghost function Run(src: seq<byte>, o: Options): Outcome
    requires o.Valid() && Safe(src)
  {
    if Open(src).None? then Rejected else
      var e := Open(src).value;
      if !SectionsReadable(e) || !SymbolsReadable(e, TablesOf(e)) then Rejected
      else RunObjects(src, e.little, Sections(e, e.shnum), Symbols(e, TablesOf(e), TablesOf(e).count), o)
  }
}
