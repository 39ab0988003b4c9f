/**
 * The abstract object file: named sections with bytes, and symbols with a section, an offset and a size.
 * Every encoding of it, of either class and in either byte order, translates to the same table image.
 */
module ObjectFile {
  import opened Common
  import opened Bytes
  import opened ElfLayout
  import opened ElfSpec
  import opened ElfTables

  /**
   * A section. The size field of the table descriptor, an integer of the target machine, is kept
   * big-endian in the content; every other byte is the byte of the file. A section named .bss has no
   * bytes in the file.
   */
  datatype Part = Part(name: seq<byte>, content: seq<byte>)

  /** A symbol's shndx is the index of its section, or any larger number when it has none of these. */
  datatype Object = Object(parts: seq<Part>, symbols: seq<Symbol>) {
    function DescriptorSymbol(): Symbol
      requires HasDescriptor()
    {
      symbols[LastDescriptor(symbols)]
    }

    /** The descriptor symbol and the 160 bytes it stands for are there. */
    predicate HasDescriptor() {
      var d := LastDescriptor(symbols);
      && d >= 0
      && symbols[d].shndx < |parts|
      && (symbols[d].size == 0 || symbols[d].size == DEF_SIZE)
      && parts[symbols[d].shndx].name != BSS_NAME
      && symbols[d].value + DEF_SIZE <= |parts[symbols[d].shndx].content|
    }

    function Definition(): Descriptor
      requires HasDescriptor()
    {
      var s := DescriptorSymbol();
      DescriptorOf(parts[s.shndx].content[s.value..s.value + DEF_SIZE], false)
    }

    function UserSymbol(): Symbol
      requires HasObject()
    {
      symbols[FirstObject(symbols, Definition().objectName, 0)]
    }

    predicate HasObject() {
      && HasDescriptor()
      && FirstObject(symbols, Definition().objectName, 0) < |symbols|
    }

    function UserSize(): nat
      requires HasObject()
    {
      StoredSize(UserSymbol().size, Definition().objectSize)
    }

    /** The object is in .bss, or its bytes are there and do not overlap the descriptor's size field. */
    predicate WellFormed() {
      && HasObject()
      && var u, d := UserSymbol(), DescriptorSymbol();
      && u.shndx < |parts|
      && if parts[u.shndx].name == BSS_NAME then u.size < 0x8000_0000 else
           && UserSize() < 0x8000_0000
           && u.value + UserSize() <= |parts[u.shndx].content|
           && (u.shndx == d.shndx ==>
                 u.value + UserSize() <= d.value + OBJECT_SIZE.at || d.value + DEF_SIZE <= u.value)
    }

    /** The bytes of a section in a file of the given byte order. */
    function FileBytes(k: nat, little: bool): (r: seq<byte>)
      requires HasDescriptor() && k < |parts|
      ensures |r| == |parts[k].content|
    {
      var d := DescriptorSymbol();
      if little && k == d.shndx
      then SwapField(parts[k].content, Field(d.value + OBJECT_SIZE.at, OBJECT_SIZE.width))
      else parts[k].content
    }
  }

  /** The table image of an object, without reference to any file. */
  function Image(obj: Object, o: Options): Outcome
    requires obj.WellFormed() && o.Valid()
  {
    var u, d := obj.UserSymbol(), obj.Definition();
    var part := obj.parts[u.shndx];
    if part.name == BSS_NAME then
      Written(TargetFile(o, d), Headers(o, d, u.size) + seq(u.size, _ => 0))
    else
      var n := obj.UserSize();
      Written(TargetFile(o, d), Headers(o, d, n) + part.content[u.value..u.value + n])
  }

  // ---------------------------------------------------------------------------
  // Encodings
  // ---------------------------------------------------------------------------

  /** The section headers can be located and read, and their names are strings that fit. */
  ghost predicate SectionsWellFormed(e: Elf) {
    && SafePosition(e, e.shstrndx)
    && SectionsReadable(e)
    && SafeSections(e)
  }

  /** The symbol table is the last one, and holds the reserved entry and then n symbols. */
  ghost predicate SymbolTableAt(e: Elf, s: seq<Section>, m: nat, n: nat) {
    && m < |s|
    && IsSymbolTable(s[m]) && (forall j | m < j < |s| :: !IsSymbolTable(s[j]))
    && s[m].entsize == SymSize(e.is32)
    && s[m].size == (n + 1) * s[m].entsize
    && s[m].offset + s[m].size < 0x8000_0000
    && s[m].offset + s[m].size <= |e.src|
  }

  /**
   * The symbol names are in the last section named .strtab, or, in a file that has none, in the first string
   * table other than the one for section names.
   */
  ghost predicate StringTableAt(s: seq<Section>, names: nat, k: nat) {
    && k < |s|
    && (|| (IsDotStrtab(s[k]) && NoDotStrtab(s, k + 1))
        || (NoDotStrtab(s, 0) && IsOtherStrings(s, names, k) && NoOtherStrings(s, names, k)))
    && forall j | 0 <= j < |s| && IsStringTable(s[j]) :: s[j].offset != 0
  }

  /** The tables that a file with these two sections has. */
  function TablesAt(e: Elf, strings: Section, table: Section, n: nat): Tables {
    Tables(strings.offset, table.offset + SymSize(e.is32), n, SymSize(e.is32))
  }

  /** The i-th symbol of the file is the i-th symbol of the object. */
  predicate SameSymbol(y: Symbol, s: Symbol, place: seq<nat>) {
    && y.name == s.name && y.value == s.value && y.size == s.size
    && (s.shndx < |place| ==> y.shndx == place[s.shndx])
  }

  ghost predicate SymbolsEncoded(e: Elf, t: Tables, obj: Object, place: seq<nat>) {
    forall i | 0 <= i < |obj.symbols| ::
      && StringFits(e.src, SymbolNamePos(e, t, i))
      && SameSymbol(SymbolAt(e, t, i), obj.symbols[i], place)
  }

  /** The section at an index of the file is the k-th section of the object. */
  predicate PartEncoded(e: Elf, s: Section, obj: Object, k: nat)
    requires obj.HasDescriptor() && k < |obj.parts|
  {
    && s.name == Some(obj.parts[k].name)
    && (obj.parts[k].name != BSS_NAME ==>
          && s.offset + |obj.parts[k].content| <= |e.src|
          && s.offset + |obj.parts[k].content| < 0x1_0000_0000
          && e.src[s.offset..s.offset + |obj.parts[k].content|] == obj.FileBytes(k, e.little))
  }

  ghost predicate PartsEncoded(e: Elf, s: seq<Section>, obj: Object, place: seq<nat>)
    requires obj.HasDescriptor()
  {
    && |place| == |obj.parts|
    && forall k | 0 <= k < |place| :: place[k] < |s| && PartEncoded(e, s[place[k]], obj, k)
  }

  /**
   * A file encodes an object: its header is accepted, its symbol table lists the object's symbols, and
   * place[k] is the index of the object's k-th section. Class, byte order, machine, section order, further
   * sections, layout and padding are free.
   */
  ghost predicate Encodes(src: seq<byte>, obj: Object, place: seq<nat>, m: nat, k: nat) {
    && obj.WellFormed()
    && Open(src).Some?
    && var e := Open(src).value;
    && SectionsWellFormed(e)
    && var s := Sections(e, e.shnum);
    && SymbolTableAt(e, s, m, |obj.symbols|)
    && StringTableAt(s, e.shstrndx, k)
    && SymbolsEncoded(e, TablesAt(e, s[k], s[m], |obj.symbols|), obj, place)
    && PartsEncoded(e, s, obj, place)
  }

  // ---------------------------------------------------------------------------
  // The passes find the tables
  // ---------------------------------------------------------------------------

  lemma PassFindsTables(e: Elf, s: seq<Section>, m: nat, k: nat, n: nat)
    requires SymbolTableAt(e, s, m, n) && StringTableAt(s, e.shstrndx, k) && n > 0
    ensures ScanSections(s, e.shstrndx, e.is32) == TablesAt(e, s[k], s[m], n)
  {
    if IsDotStrtab(s[k]) && NoDotStrtab(s, k + 1) {
      DotStrtabIsChosen(s, e.shstrndx, e.is32, k);
    } else {
      FirstOtherIsChosen(s, e.shstrndx, e.is32, k);
    }
    LastSymbolTableIsUsed(s, e.shstrndx, e.is32, m);
    TableIsExact(s[m], n + 1, e.is32, NO_TABLES);
  }

  lemma SymbolsAreReadable(e: Elf, s: seq<Section>, m: nat, k: nat, n: nat, t: Tables)
    requires SymbolTableAt(e, s, m, n) && StringTableAt(s, e.shstrndx, k) && n > 0
    requires t == TablesAt(e, s[k], s[m], n)
    ensures SymbolsReadTo(e, t, n)
  {
    forall i | 0 <= i < n ensures SymbolReadable(e, t, i) {
      SymbolCoverage(t, s[m], n + 1, e.is32, i);
    }
  }

  // ---------------------------------------------------------------------------
  // Descriptor and object
  // ---------------------------------------------------------------------------

  lemma SameSearches(y: seq<Symbol>, symbols: seq<Symbol>, place: seq<nat>, objectName: seq<byte>)
    requires |y| == |symbols| && forall i | 0 <= i < |y| :: SameSymbol(y[i], symbols[i], place)
    ensures LastDescriptor(y) == LastDescriptor(symbols)
    ensures FirstObject(y, objectName, 0) == FirstObject(symbols, objectName, 0)
  {
    forall i | 0 <= i < |y| ensures y[i].name == symbols[i].name {
      assert SameSymbol(y[i], symbols[i], place);
    }
    var d, f := LastDescriptor(y), LastDescriptor(symbols);
    assert (d >= 0 ==> NamesDescriptor(symbols[d].name)) && (f >= 0 ==> NamesDescriptor(y[f].name));
    var u, v := FirstObject(y, objectName, 0), FirstObject(symbols, objectName, 0);
    assert u < |y| ==> NamesObject(symbols[u].name, objectName);
    assert v < |y| ==> NamesObject(y[v].name, objectName);
  }

  /** The 160 descriptor bytes, in either byte order, decode to the object's definition. */
  lemma DefinitionDecodes(obj: Object, little: bool)
    requires obj.HasDescriptor()
    ensures
      var d := obj.DescriptorSymbol();
      DescriptorOf(obj.FileBytes(d.shndx, little)[d.value..d.value + DEF_SIZE], little) == obj.Definition()
  {
    var d := obj.DescriptorSymbol();
    var content := obj.parts[d.shndx].content;
    var canonical := content[d.value..d.value + DEF_SIZE];
    if little {
      var swapped := obj.FileBytes(d.shndx, little)[d.value..d.value + DEF_SIZE];
      assert swapped == SwapField(canonical, OBJECT_SIZE) by {
        SwapInside(content, d.value, DEF_SIZE, OBJECT_SIZE);
      }
      SwappedDescriptor(canonical, true);
    }
  }

  lemma SwapInside(s: seq<byte>, at: nat, size: nat, f: Field)
    requires at + size <= |s| && f.Fits(size)
    ensures SwapField(s, Field(at + f.at, f.width))[at..at + size] == SwapField(s[at..at + size], f)
  {
    hide SwapField;
    var outer, inner := SwapField(s, Field(at + f.at, f.width))[at..at + size], SwapField(s[at..at + size], f);
    forall k | 0 <= k < size ensures outer[k] == inner[k] {
      SwapFieldAt(s, Field(at + f.at, f.width), at + k);
      SwapFieldAt(s[at..at + size], f, k);
    }
  }

  lemma SwapFieldAt(s: seq<byte>, f: Field, k: nat)
    requires f.Fits(|s|) && k < |s|
    ensures SwapField(s, f)[k] == if f.at <= k < f.at + f.width then s[2 * f.at + f.width - 1 - k] else s[k]
  {
  }

  /** The object's bytes are the same in either byte order. */
  lemma ObjectBytesUnswapped(obj: Object, little: bool)
    requires obj.WellFormed() && obj.parts[obj.UserSymbol().shndx].name != BSS_NAME
    ensures
      var u, n := obj.UserSymbol(), obj.UserSize();
      obj.FileBytes(u.shndx, little)[u.value..u.value + n] == obj.parts[u.shndx].content[u.value..u.value + n]
  {
    var u, d, n := obj.UserSymbol(), obj.DescriptorSymbol(), obj.UserSize();
    if little && u.shndx == d.shndx {
      SwapFieldSlices(obj.parts[u.shndx].content, Field(d.value + OBJECT_SIZE.at, OBJECT_SIZE.width), Field(u.value, n));
    }
  }

  /** The descriptor of an encoding can be read, and is the object's definition. */
  lemma DescriptorFound(e: Elf, s: Section, obj: Object, y: Symbol)
    requires obj.HasDescriptor() && PartEncoded(e, s, obj, obj.DescriptorSymbol().shndx)
    requires y.value == obj.DescriptorSymbol().value && y.size == obj.DescriptorSymbol().size
    ensures DescriptorReadable(e.src, y, s)
    ensures DescriptorAt(e.src, e.little, y, s) == obj.Definition()
  {
    hide DescriptorOf;
    var d := obj.DescriptorSymbol();
    var bytes := obj.FileBytes(d.shndx, e.little);
    assert ObjectPos(y, s) == s.offset + d.value;
    SliceOfSlice(e.src, s.offset, |bytes|, d.value, DEF_SIZE);
    DefinitionDecodes(obj, e.little);
  }

  lemma ReadInside(src: seq<byte>, at: nat, n: nat)
    requires at + n <= |src|
    ensures ReadThrough(src, at, n) == src[at..at + n]
  {
  }

  /** The bytes of a stored object are read from an encoding. */
  lemma ObjectRead(e: Elf, s: Section, obj: Object, y: Symbol)
    requires obj.WellFormed() && PartEncoded(e, s, obj, obj.UserSymbol().shndx)
    requires y.value == obj.UserSymbol().value
    requires obj.parts[obj.UserSymbol().shndx].name != BSS_NAME
    ensures ObjectPos(y, s) < 0x1_0000_0000
    ensures
      var u, n := obj.UserSymbol(), obj.UserSize();
      ReadThrough(e.src, ObjectPos(y, s), n) == obj.parts[u.shndx].content[u.value..u.value + n]
  {
    hide DescriptorOf, ReadThrough, Object.HasDescriptor, Object.FileBytes, StoredSize;
    var u := obj.UserSymbol();
    var n, bytes := obj.UserSize(), obj.FileBytes(u.shndx, e.little);
    assert ObjectPos(y, s) == s.offset + u.value;
    SliceOfSlice(e.src, s.offset, |bytes|, u.value, n);
    ReadInside(e.src, s.offset + u.value, n);
    ObjectBytesUnswapped(obj, e.little);
  }

  /** The object of an encoding is translated to the image of the object. */
  lemma ObjectTranslated(e: Elf, s: Section, obj: Object, y: Symbol, o: Options)
    requires obj.WellFormed() && o.Valid() && PartEncoded(e, s, obj, obj.UserSymbol().shndx)
    requires y.value == obj.UserSymbol().value && y.size == obj.UserSymbol().size
    ensures Translate(e.src, o, obj.Definition(), y, s) == Image(obj, o)
  {
    hide DescriptorOf, Headers, TargetFile, ReadThrough, Object.HasDescriptor, Object.FileBytes, StoredSize, ObjectPos;
    if obj.parts[obj.UserSymbol().shndx].name != BSS_NAME {
      ObjectRead(e, s, obj, y);
    }
  }

  // ---------------------------------------------------------------------------
  // Encoding independence
  // ---------------------------------------------------------------------------

  /** What follows the section and symbol passes depends on the object alone. */
  lemma ObjectsTranslated(e: Elf, s: seq<Section>, y: seq<Symbol>, obj: Object, place: seq<nat>, o: Options)
    requires obj.WellFormed() && o.Valid() && PartsEncoded(e, s, obj, place)
    requires |y| == |obj.symbols| && forall i | 0 <= i < |y| :: SameSymbol(y[i], obj.symbols[i], place)
    ensures SafeObjects(e.src, e.little, s, y)
    ensures RunObjects(e.src, e.little, s, y, o) == Image(obj, o)
  {
    hide DescriptorOf, DescriptorAt, DescriptorReadable, Translate, Image;
    var d, def := LastDescriptor(obj.symbols), obj.Definition();
    SameSearches(y, obj.symbols, place, def.objectName);
    assert SameSymbol(y[d], obj.symbols[d], place);
    DescriptorFound(e, s[y[d].shndx], obj, y[d]);
    var u := FirstObject(obj.symbols, def.objectName, 0);
    assert SameSymbol(y[u], obj.symbols[u], place);
    ObjectTranslated(e, s[y[u].shndx], obj, y[u], o);
  }

  /** A run whose passes succeed is safe and comes to what RunObjects makes of their results. */
  lemma PassesSucceed(src: seq<byte>, e: Elf, t: Tables, y: seq<Symbol>, o: Options)
    requires Open(src) == Some(e) && SectionsWellFormed(e) && o.Valid()
    requires t == TablesOf(e) && SymbolsReadable(e, t) && SafeSymbols(e, t) && y == Symbols(e, t, t.count)
    requires SafeObjects(src, e.little, Sections(e, e.shnum), y)
    ensures Safe(src) && Run(src, o) == RunObjects(src, e.little, Sections(e, e.shnum), y, o)
  {
    hide Open, ScanSections, Sections, Symbols, SafeObjects, SafeSymbols, RunObjects, SymbolsReadable;
    hide SectionsReadable, SafePosition, SafeSections;
  }

  /** Both passes over an encoding succeed, and the symbols they read are the object's. */
  lemma SymbolsFound(e: Elf, obj: Object, place: seq<nat>, m: nat, k: nat, t: Tables)
    requires SymbolTableAt(e, Sections(e, e.shnum), m, |obj.symbols|) && StringTableAt(Sections(e, e.shnum), e.shstrndx, k)
    requires t == TablesAt(e, Sections(e, e.shnum)[k], Sections(e, e.shnum)[m], |obj.symbols|)
    requires |obj.symbols| > 0 && SymbolsEncoded(e, t, obj, place)
    ensures t == TablesOf(e) && t.count == |obj.symbols| && SymbolsReadable(e, t) && SafeSymbols(e, t)
    ensures forall i | 0 <= i < |obj.symbols| :: SameSymbol(Symbols(e, t, |obj.symbols|)[i], obj.symbols[i], place)
  {
    hide SectionAt, SymbolAt, SymbolReadable, ScanSections, SymbolNamePos, StringFits, SameSymbol;
    var s, n := Sections(e, e.shnum), |obj.symbols|;
    PassFindsTables(e, s, m, k, n);
    SymbolsAreReadable(e, s, m, k, n, t);
  }

  /** A file that encodes an object is safe, and a run on it writes the image of the object. */
  lemma EncodingTranslates(src: seq<byte>, obj: Object, place: seq<nat>, m: nat, k: nat, o: Options)
    requires Encodes(src, obj, place, m, k) && o.Valid()
    ensures Safe(src) && Run(src, o) == Image(obj, o)
  {
    hide Open, Run, Safe, SectionAt, SymbolAt, TablesOf, SectionsWellFormed, SymbolsReadable, SafeSymbols;
    hide SymbolsEncoded;
    hide PartEncoded, RunObjects, SafeObjects, Image, LastDescriptor, FirstObject, SameSymbol;
    var e := Open(src).value;
    OpenKeepsBytes(src);
    var s, n := Sections(e, e.shnum), |obj.symbols|;
    var t := TablesAt(e, s[k], s[m], n);
    SymbolsFound(e, obj, place, m, k, t);
    var y := Symbols(e, t, n);
    ObjectsTranslated(e, s, y, obj, place, o);
    PassesSucceed(src, e, t, y, o);
  }

  lemma OpenKeepsBytes(src: seq<byte>)
    requires Open(src).Some?
    ensures Open(src).value.src == src
  {
  }

  /**
   * Encoding independence: any two files that encode one object, whatever their classes, byte orders and
   * layouts, give byte for byte the same image under the same options.
   */
  lemma EncodingIndependence(src: seq<byte>, src': seq<byte>, obj: Object, place: seq<nat>, place': seq<nat>,
                             m: nat, m': nat, k: nat, k': nat, o: Options)
    requires Encodes(src, obj, place, m, k) && Encodes(src', obj, place', m', k') && o.Valid()
    ensures Safe(src) && Safe(src') && Run(src, o) == Run(src', o) && Run(src, o).Written?
  {
    EncodingTranslates(src, obj, place, m, k, o);
    EncodingTranslates(src', obj, place', m', k', o);
  }
}
