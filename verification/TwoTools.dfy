/** The image that the translator writes, as the CRC tool reports it. */
module TwoTools {
  import opened Common
  import opened Bytes
  import opened ElfSpec
  import opened ObjectFile
  import opened TableImage
  import opened ByteWords
  import Elf2CfeTbl
  import Crc16
  import CrcWords
  import CrcTool

  /** A file's bytes as the CRC tool's buffer holds them. */
  function Octets(s: seq<byte>): (r: seq<bv8>)
    ensures |r| == |s|
    ensures forall i | 0 <= i < |s| :: r[i] == Octet(s[i])
  {
    seq(|s|, i requires 0 <= i < |s| => Octet(s[i]))
  }

  /** The CRC-16/ARC of some bytes: the bit-serial register after them, from a clear start. */
  ghost function CrcOf(s: seq<byte>): Crc16.Register {
    Crc16.Crc(CrcWords.Bits(Octets(s)), Crc16.CLEAR)
  }

  /** The report agrees with an image: its size is the header's NumBytes and its CRC that of the table data. */
  ghost predicate Agrees(report: CrcTool.Report, image: seq<byte>)
    requires |image| >= HEADERS_SIZE
  {
    && report.size == Parse(image).numBytes
    && report.size == |image| - HEADERS_SIZE
    && CrcWords.RegBits(CrcWords.Low16(report.crc)) == CrcOf(image[HEADERS_SIZE..])
  }

  lemma PayloadOctets(image: seq<byte>)
    requires |image| >= HEADERS_SIZE
    ensures CrcTool.Payload(Octets(image)) == Octets(image[HEADERS_SIZE..])
  {
  }

  /** The CRC tool on an open image file. There is no report exactly when a read fails. */
  method CheckImage(file: CrcTool.InputFile, ghost image: seq<byte>) returns (report: Option<CrcTool.Report>)
    requires |image| >= HEADERS_SIZE && Parse(image).numBytes == |image| - HEADERS_SIZE
    requires !file.failed && file.content == Octets(image)
    modifies file
    ensures report.None? <==> file.failed
    ensures report.Some? ==> Agrees(report.value, image)
  {
    report := CrcTool.ReportFile(file);
    PayloadOctets(image);
  }

  /**
   * The report speaks of the object in the source file: when its bytes are all there, the reported size and
   * CRC are those of the bytes from the section's offset plus the symbol's value on.
   */
  ghost predicate ReportsObject(report: CrcTool.Report, src: seq<byte>, y: Symbol, home: Section) {
    var at := home.offset + y.value;
    home.name != Some(BSS_NAME) && at < 0x1_0000_0000_0000_0000 && at + report.size <= |src| ==>
      CrcWords.RegBits(CrcWords.Low16(report.crc)) == CrcOf(src[at..at + report.size])
  }

  lemma ReportOfPayload(report: CrcTool.Report, image: seq<byte>, src: seq<byte>, d: Descriptor, y: Symbol, home: Section)
    requires Exact(image, src, d, y, home) && Agrees(report, image)
    ensures ReportsObject(report, src, y, home)
  {
    hide Parse, CrcOf;
    SectionTexts();
  }

  /** For every encoding of an object outside .bss, the report has the size and the CRC of the object's bytes. */
  lemma ObjectChecked(report: CrcTool.Report, obj: Object, o: Options)
    requires obj.WellFormed() && o.Valid() && obj.parts[obj.UserSymbol().shndx].name != BSS_NAME
    requires |Image(obj, o).image| >= HEADERS_SIZE && Agrees(report, Image(obj, o).image)
    ensures report.size == obj.UserSize()
    ensures
      var u := obj.UserSymbol();
      CrcWords.RegBits(CrcWords.Low16(report.crc)) ==
        CrcOf(obj.parts[u.shndx].content[u.value..u.value + obj.UserSize()])
  {
    hide Parse, CrcOf, Headers, TargetFile, DescriptorOf, Object.HasObject;
    var image, u := Image(obj, o).image, obj.UserSymbol();
    assert image[HEADERS_SIZE..] == obj.parts[u.shndx].content[u.value..u.value + obj.UserSize()];
  }

  /**
   * Both tools in turn, on any machine: when an image is written and checked, the report's size is the
   * header's NumBytes and its CRC is that of the object which the source file's symbols select. There is no
   * report for a written image exactly when a read of it fails.
   */
  method TranslateAndCheck(t: Elf2CfeTbl.Translator)
    returns (outcome: Outcome, file: CrcTool.InputFile?, report: Option<CrcTool.Report>,
             ghost i: nat, ghost u: nat, ghost d: Descriptor, ghost y: Symbol, ghost home: Section)
    requires t.Fresh() && t.options.Valid() && Safe(t.source)
    modifies t
    ensures outcome == Run(t.source, t.options)
    ensures outcome.Written? ==>
      && t.output == Some(outcome.image)
      && file != null && fresh(file) && file.content == Octets(outcome.image)
      && (report.None? <==> file.failed)
      && Selects(t.source, i, u, d, y, home) && Exact(outcome.image, t.source, d, y, home)
      && (report.Some? ==> Agrees(report.value, outcome.image) && ReportsObject(report.value, t.source, y, home))
    ensures !outcome.Written? ==> file == null && report == None
  {
    hide Safe, Run, Selects, PayloadOf, Agrees, Parse;
    outcome := t.Convert();
    file, report := null, None;
    if outcome.Written? {
      i, u, d, y, home := PayloadExactness(t.source, t.options);
      file := new CrcTool.InputFile(Octets(outcome.image));
      report := CheckImage(file, outcome.image);
      if report.Some? {
        ReportOfPayload(report.value, outcome.image, t.source, d, y, home);
      }
    } else {
      i, u, d := 0, 0, Descriptor([], [], [], [], 0);
      y, home := Symbol([], 0, 0, 0), Section(None, 0, 0, 0, 0);
    }
  }
}
