/** An object of one section, a descriptor and a table of four bytes: the assumptions on objects can be met. */
module ExampleObject {
  import opened Common
  import opened Bytes
  import opened ElfLayout
  import opened ElfSpec
  import opened ObjectFile
  import opened ElfRecords
  import opened ElfEncoder
  import TableImage

  const OBJECT_TEXT: seq<byte> := [0x54]
  const TABLE_TEXT: seq<byte> := [0x41, 0x2e, 0x54]
  const DATA: seq<byte> := [1, 2, 3, 4]

  const DEFINITION := Descriptor(OBJECT_TEXT, TABLE_TEXT, [], OBJECT_TEXT, |DATA|)

  /** The definition as an object keeps it: its size is big-endian. */
  function Definition(): (r: seq<byte>)
    ensures |r| == DEF_SIZE
  {
    DescriptorBytes(DEFINITION, false)
  }

  const OBJECT := Object(
    [Part([0x2e, 0x64], Definition() + DATA)],
    [Symbol(DEF_NAME, 0, DEF_SIZE, 0), Symbol(OBJECT_TEXT, DEF_SIZE, |DATA|, 0)])

  lemma DefinitionRead()
    ensures DescriptorOf(Definition(), false) == DEFINITION
  {
    DescriptorRead(DEFINITION, false);
  }

  lemma SymbolsFound()
    ensures LastDescriptor(OBJECT.symbols) == 0
    ensures FirstObject(OBJECT.symbols, OBJECT_TEXT, 0) == 1
  {
    assert |OBJECT.symbols| == 2 && !NamesDescriptor(OBJECT.symbols[1].name) && NamesDescriptor(OBJECT.symbols[0].name);
    assert DEF_NAME[0] != OBJECT_TEXT[0];
    assert !NamesObject(OBJECT.symbols[0].name, OBJECT_TEXT) && NamesObject(OBJECT.symbols[1].name, OBJECT_TEXT);
  }

  lemma ObjectIsWellFormed()
    ensures OBJECT.WellFormed() && OBJECT.HasDescriptor()
    ensures |OBJECT.parts| == 1 && |OBJECT.parts[0].content| == 164
  {
    hide Definition, DescriptorOf;
    SymbolsFound();
    DefinitionRead();
    var content := OBJECT.parts[0].content;
    assert content[..DEF_SIZE] == Definition();
    assert OBJECT.parts[0].name[1] != BSS_NAME[1];
    assert OBJECT.HasDescriptor();
    assert OBJECT.DescriptorSymbol() == OBJECT.symbols[0];
    assert content[0..0 + DEF_SIZE] == Definition();
    assert OBJECT.Definition() == DescriptorOf(Definition(), false);
  }

  lemma {:induction false} FlatBounded(pieces: seq<seq<byte>>, bound: nat)
    requires forall i | 0 <= i < |pieces| :: |pieces[i]| <= bound
    ensures |Flat(pieces)| <= |pieces| * bound
    decreases |pieces|
  {
    if pieces != [] {
      FlatBounded(pieces[..|pieces| - 1], bound);
      assert |pieces| * bound == (|pieces| - 1) * bound + bound;
    }
  }

  lemma StringTableBounded(names: seq<seq<byte>>)
    requires |names| <= 4 && forall i | 0 <= i < |names| :: |names[i]| < NAME_SIZE
    ensures |StringTable(names)| <= 1 + 4 * NAME_SIZE
  {
    FlatBounded(Terminated(names), NAME_SIZE);
    assert |names| * NAME_SIZE <= 4 * NAME_SIZE;
  }

  lemma ContentsBounded(is32: bool, little: bool, i: nat)
    requires OBJECT.HasDescriptor() && |OBJECT.parts| == 1 && |OBJECT.parts[0].content| == 164 && i < 5
    ensures |Contents(OBJECT, is32, little)[i]| <= 1000
  {
    hide Flat, StringTable, Object.HasDescriptor, Object.FileBytes;
    StringTableBounded(SymbolNames(OBJECT));
    StringTableBounded(SectionNames(OBJECT));
    SymbolTableSize(OBJECT, is32, little);
  }

  /** The example can be encoded in each class and byte order. */
  lemma ObjectIsEncodable(is32: bool, little: bool)
    ensures Encodable(OBJECT, is32, little)
  {
    hide Flat, Object.WellFormed, Object.HasDescriptor, HeaderRecord, SectionRecord, RecordBytes, SectionPlan;
    ObjectIsWellFormed();
    var c, h := Contents(OBJECT, is32, little), SectionHeaders(OBJECT, is32, little);
    forall i | 0 <= i < |c| ensures |c[i]| <= 1000 {
      ContentsBounded(is32, little, i);
    }
    FlatBounded(c, 1000);
    SectionSizes(OBJECT, is32, little);
    FlatBounded(h, 64);
    Spans();
    assert forall p | p in OBJECT.parts :: p == OBJECT.parts[0];
    assert forall y | y in OBJECT.symbols :: y == OBJECT.symbols[0] || y == OBJECT.symbols[1];
    assert NamesFit(OBJECT) && SymbolsFit(OBJECT, is32);
  }

  /** The image of the example ends in its four bytes. */
  lemma ImageOfObject(o: Options)
    requires o.Valid()
    ensures OBJECT.WellFormed() && Image(OBJECT, o).Written?
    ensures Image(OBJECT, o).image[TableImage.HEADERS_SIZE..] == DATA
  {
    hide Headers, TargetFile, Definition, DescriptorOf;
    ObjectIsWellFormed();
    SymbolsFound();
    DefinitionRead();
    var content := OBJECT.parts[0].content;
    assert content[0..0 + DEF_SIZE] == Definition();
    assert OBJECT.Definition() == DescriptorOf(Definition(), false);
    assert OBJECT.parts[0].name[1] != BSS_NAME[1];
    assert content[DEF_SIZE..DEF_SIZE + |DATA|] == DATA;
  }

  /** Options can be left out. */
  lemma NoOptions()
    ensures Options(None, None, None, None, None, None, []).Valid()
  {
  }
}
