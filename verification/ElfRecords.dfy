/**
 * ELF records written out: every member in declaration order with its declared width. The accessors of the
 * translator read the members of the same names, and its swaps turn a record into that of the other byte order.
 */
module ElfRecords {
  import opened Common
  import opened Bytes
  import opened ElfLayout
  import opened ElfSpec

  // ---------------------------------------------------------------------------
  // Members laid end to end
  // ---------------------------------------------------------------------------

  datatype Member = Member(value: nat, width: nat)

  function RecordBytes(members: seq<Member>, little: bool): seq<byte> {
    if members == [] then []
    else
      var last := members[|members| - 1];
      RecordBytes(members[..|members| - 1], little) + Encode(last.value, last.width, little)
  }

  /** The sum of the widths of the first k members. */
  function OffsetOf(members: seq<Member>, k: nat): nat
    requires k <= |members|
  {
    if k == 0 then 0 else OffsetOf(members, k - 1) + members[k - 1].width
  }

  /** Where a member lies when the first one is at the given offset. */
  function Place(base: nat, members: seq<Member>, k: nat): Field
    requires k < |members|
  {
    Field(base + OffsetOf(members, k), members[k].width)
  }

  predicate MembersFit(members: seq<Member>) {
    forall i | 0 <= i < |members| :: members[i].value < Span(members[i].width)
  }

  lemma {:induction false} OffsetInFront(members: seq<Member>, n: nat, k: nat)
    requires k <= n <= |members|
    ensures OffsetOf(members[..n], k) == OffsetOf(members, k)
    decreases k
  {
    if k > 0 {
      OffsetInFront(members, n, k - 1);
    }
  }

  lemma {:induction false} RecordSize(members: seq<Member>, little: bool)
    ensures |RecordBytes(members, little)| == OffsetOf(members, |members|)
    decreases |members|
  {
    hide Encode;
    if members != [] {
      var n := |members| - 1;
      RecordSize(members[..n], little);
      OffsetInFront(members, n, n);
    }
  }

  lemma {:induction false} MemberBytes(members: seq<Member>, little: bool, k: nat)
    requires k < |members|
    ensures Place(0, members, k).Fits(|RecordBytes(members, little)|)
    ensures Slice(RecordBytes(members, little), Place(0, members, k)) == Encode(members[k].value, members[k].width, little)
    decreases |members|
  {
    hide Encode;
    var n := |members| - 1;
    var front := members[..n];
    RecordSize(front, little);
    OffsetInFront(members, n, k);
    OffsetInFront(members, n, n);
    if k < n {
      MemberBytes(front, little, k);
    }
  }

  predicate Located(s: seq<byte>, at: nat, piece: seq<byte>) {
    at + |piece| <= |s| && s[at..at + |piece|] == piece
  }

  lemma LocatedInside(s: seq<byte>, at: nat, inner: seq<byte>, from: nat, piece: seq<byte>)
    requires Located(s, at, inner) && Located(inner, from, piece)
    ensures Located(s, at + from, piece)
  {
    SliceOfSlice(s, at, |inner|, from, |piece|);
  }

  /** A record in a file shows the value of each member. */
  lemma MemberRead(src: seq<byte>, at: nat, base: nat, members: seq<Member>, little: bool, k: nat)
    requires Located(src, at + base, RecordBytes(members, little)) && k < |members| && MembersFit(members)
    ensures FieldAt(src, little, at, Place(base, members, k)) == members[k].value
  {
    hide Encode, Decode, RecordBytes;
    var record, f := RecordBytes(members, little), Place(0, members, k);
    MemberBytes(members, little, k);
    SliceOfSlice(src, at + base, |record|, f.at, f.width);
    EncodeRoundTrip(members[k].value, f.width, little);
  }

  // ---------------------------------------------------------------------------
  // Swapping a record
  // ---------------------------------------------------------------------------

  lemma {:induction false} OffsetsGrow(members: seq<Member>, j: nat, k: nat)
    requires j <= k <= |members|
    ensures OffsetOf(members, j) <= OffsetOf(members, k)
    ensures j < k ==> OffsetOf(members, j) + members[j].width <= OffsetOf(members, k)
    decreases k
  {
    if j < k {
      OffsetsGrow(members, j, k - 1);
    }
  }

  lemma PlacesApart(base: nat, members: seq<Member>, j: nat, k: nat)
    requires j < |members| && k < |members| && j != k
    ensures Place(base, members, j).Apart(Place(base, members, k))
  {
    if j < k {
      OffsetsGrow(members, j, k);
    } else {
      OffsetsGrow(members, k, j);
    }
  }

  lemma EncodeReversed(v: nat, width: nat, little: bool)
    ensures Reverse(Encode(v, width, little)) == Encode(v, width, !little)
    ensures width == 1 ==> Encode(v, width, little) == Encode(v, width, !little)
  {
    ReverseTwice(LittleBytes(v, width));
  }

  /** The fields of a swap list are members of the record, and those left out are single bytes. */
  ghost predicate SwapsMembers(fields: seq<Field>, base: nat, members: seq<Member>) {
    && (forall f | f in fields :: exists k :: 0 <= k < |members| && f == Place(base, members, k))
    && (forall k | 0 <= k < |members| && members[k].width != 1 :: Place(base, members, k) in fields)
  }

  lemma PlaceOutside(base: nat, members: seq<Member>, fields: seq<Field>, k: nat)
    requires SwapsMembers(fields, base, members) && k < |members| && Place(base, members, k) !in fields
    ensures members[k].width == 1
    ensures forall g | g in fields :: Place(base, members, k).Apart(g)
  {
    forall g | g in fields ensures Place(base, members, k).Apart(g) {
      var j :| 0 <= j < |members| && g == Place(base, members, j);
      PlacesApart(base, members, k, j);
    }
  }

  lemma PrefixedBytes(prefix: seq<byte>, members: seq<Member>, little: bool, k: nat)
    requires k < |members|
    ensures Place(|prefix|, members, k).Fits(|prefix + RecordBytes(members, little)|)
    ensures
      Slice(prefix + RecordBytes(members, little), Place(|prefix|, members, k))
      == Encode(members[k].value, members[k].width, little)
  {
    hide Encode, RecordBytes;
    MemberBytes(members, little, k);
    var r, f := RecordBytes(members, little), Place(0, members, k);
    assert (prefix + r)[|prefix|..] == r;
    SliceOfSlice(prefix + r, |prefix|, |r|, f.at, f.width);
  }

  lemma PlaceSwapped(prefix: seq<byte>, members: seq<Member>, fields: seq<Field>, little: bool, k: nat)
    requires SwapsMembers(fields, |prefix|, members) && Disjoint(fields) && k < |members|
    requires FieldsFit(fields, |prefix + RecordBytes(members, little)|)
    ensures Place(|prefix|, members, k).Fits(|prefix + RecordBytes(members, little)|)
    ensures
      Slice(SwapFields(prefix + RecordBytes(members, little), fields), Place(|prefix|, members, k))
      == Encode(members[k].value, members[k].width, !little)
  {
    hide Encode, RecordBytes, SwapFields, Reverse, Slice, SwapsMembers, OffsetOf;
    var x, f := prefix + RecordBytes(members, little), Place(|prefix|, members, k);
    PrefixedBytes(prefix, members, little, k);
    EncodeReversed(members[k].value, members[k].width, little);
    if f !in fields {
      PlaceOutside(|prefix|, members, fields, k);
    }
    SwapFieldsSlices(x, fields, f);
  }

  /** Two sequences that agree on a prefix and on every member agree up to there. */
  lemma {:induction false} EqualByPlaces(x: seq<byte>, y: seq<byte>, base: nat, members: seq<Member>, n: nat)
    requires n <= |members| && |x| == |y| == base + OffsetOf(members, |members|)
    requires x[..base] == y[..base]
    requires forall k | 0 <= k < n ::
      Place(base, members, k).Fits(|x|) && Slice(x, Place(base, members, k)) == Slice(y, Place(base, members, k))
    ensures base + OffsetOf(members, n) <= |x|
    ensures x[..base + OffsetOf(members, n)] == y[..base + OffsetOf(members, n)]
    decreases n
  {
    OffsetsGrow(members, n, |members|);
    if n > 0 {
      EqualByPlaces(x, y, base, members, n - 1);
      var p, f := base + OffsetOf(members, n - 1), Place(base, members, n - 1);
      var q := p + f.width;
      assert q == base + OffsetOf(members, n) && Slice(x, f) == x[p..q] && Slice(y, f) == y[p..q];
      assert x[..q] == x[..p] + x[p..q] && y[..q] == y[..p] + y[p..q];
    }
  }

  lemma {:induction false} SwapKeepsPrefix(s: seq<byte>, fields: seq<Field>, n: nat)
    requires FieldsFit(fields, |s|) && n <= |s| && forall f | f in fields :: n <= f.at
    ensures SwapFields(s, fields)[..n] == s[..n]
    decreases |fields|
  {
    if fields != [] {
      SwapKeepsPrefix(s, fields[..|fields| - 1], n);
    }
  }

  /** Swapping the fields of a record turns it into the same record of the other byte order. */
  lemma SwapTurnsRecord(prefix: seq<byte>, members: seq<Member>, fields: seq<Field>, little: bool)
    requires SwapsMembers(fields, |prefix|, members) && Disjoint(fields)
    requires FieldsFit(fields, |prefix| + OffsetOf(members, |members|))
    ensures |RecordBytes(members, little)| == OffsetOf(members, |members|)
    ensures SwapFields(prefix + RecordBytes(members, little), fields) == prefix + RecordBytes(members, !little)
  {
    hide Encode, RecordBytes, SwapFields, Slice, OffsetOf;
    RecordSize(members, little);
    RecordSize(members, !little);
    var was, now := prefix + RecordBytes(members, little), prefix + RecordBytes(members, !little);
    var swapped := SwapFields(was, fields);
    forall f | f in fields ensures |prefix| <= f.at {
      var j :| 0 <= j < |members| && f == Place(|prefix|, members, j);
    }
    SwapKeepsPrefix(was, fields, |prefix|);
    assert was[..|prefix|] == prefix == now[..|prefix|];
    forall k | 0 <= k < |members|
      ensures Place(|prefix|, members, k).Fits(|swapped|)
           && Slice(swapped, Place(|prefix|, members, k)) == Slice(now, Place(|prefix|, members, k))
    {
      PlaceSwapped(prefix, members, fields, little, k);
      PrefixedBytes(prefix, members, !little, k);
    }
    EqualByPlaces(swapped, now, |prefix|, members, |members|);
    assert swapped[..|swapped|] == swapped && now[..|now|] == now;
  }

  // ---------------------------------------------------------------------------
  // The three records
  // ---------------------------------------------------------------------------

  /** The width of an address, offset or size. */
  function Wide(is32: bool): nat {
    if is32 then 4 else 8
  }

  datatype FileHeader = FileHeader(
    ident: seq<byte>, kind: nat, machine: nat, version: nat, entry: nat, phoff: nat, shoff: nat, flags: nat,
    ehsize: nat, phentsize: nat, phnum: nat, shentsize: nat, shnum: nat, shstrndx: nat)
  {
    /** The members after the identification. */
    function Members(is32: bool): seq<Member> {
      [Member(kind, 2), Member(machine, 2), Member(version, 4), Member(entry, Wide(is32)), Member(phoff, Wide(is32)),
       Member(shoff, Wide(is32)), Member(flags, 4), Member(ehsize, 2), Member(phentsize, 2), Member(phnum, 2),
       Member(shentsize, 2), Member(shnum, 2), Member(shstrndx, 2)]
    }

    function Bytes(is32: bool, little: bool): seq<byte> {
      ident + RecordBytes(Members(is32), little)
    }
  }

  datatype SectionHeader = SectionHeader(
    name: nat, kind: nat, flags: nat, addr: nat, offset: nat, size: nat, link: nat, info: nat, addralign: nat, entsize: nat)
  {
    function Members(is32: bool): seq<Member> {
      [Member(name, 4), Member(kind, 4), Member(flags, Wide(is32)), Member(addr, Wide(is32)), Member(offset, Wide(is32)),
       Member(size, Wide(is32)), Member(link, 4), Member(info, 4), Member(addralign, Wide(is32)),
       Member(entsize, Wide(is32))]
    }

    function Bytes(is32: bool, little: bool): seq<byte> {
      RecordBytes(Members(is32), little)
    }
  }

  datatype SymbolEntry = SymbolEntry(name: nat, value: nat, size: nat, info: nat, other: nat, shndx: nat)
  {
    function Members(is32: bool): seq<Member> {
      if is32 then
        [Member(name, 4), Member(value, 4), Member(size, 4), Member(info, 1), Member(other, 1), Member(shndx, 2)]
      else
        [Member(name, 4), Member(info, 1), Member(other, 1), Member(shndx, 2), Member(value, 8), Member(size, 8)]
    }

    function Bytes(is32: bool, little: bool): seq<byte> {
      RecordBytes(Members(is32), little)
    }
  }

  // ---------------------------------------------------------------------------
  // Where the members are
  // ---------------------------------------------------------------------------

  lemma FileHeaderOffsets(h: FileHeader, is32: bool)
    ensures
      var m, w := h.Members(is32), Wide(is32);
      && OffsetOf(m, 0) == 0 && OffsetOf(m, 1) == 2 && OffsetOf(m, 2) == 4 && OffsetOf(m, 3) == 8
      && OffsetOf(m, 4) == 8 + w && OffsetOf(m, 5) == 8 + 2 * w && OffsetOf(m, 6) == 8 + 3 * w
      && OffsetOf(m, 7) == 12 + 3 * w && OffsetOf(m, 8) == 14 + 3 * w && OffsetOf(m, 9) == 16 + 3 * w
      && OffsetOf(m, 10) == 18 + 3 * w && OffsetOf(m, 11) == 20 + 3 * w && OffsetOf(m, 12) == 22 + 3 * w
      && OffsetOf(m, 13) == 24 + 3 * w
  {
    var m, w := h.Members(is32), Wide(is32);
    assert OffsetOf(m, 1) == 2 && OffsetOf(m, 2) == 4 && OffsetOf(m, 3) == 8 && OffsetOf(m, 4) == 8 + w;
    assert OffsetOf(m, 5) == 8 + 2 * w && OffsetOf(m, 6) == 8 + 3 * w && OffsetOf(m, 7) == 12 + 3 * w;
    assert OffsetOf(m, 8) == 14 + 3 * w && OffsetOf(m, 9) == 16 + 3 * w && OffsetOf(m, 10) == 18 + 3 * w;
    assert OffsetOf(m, 11) == 20 + 3 * w && OffsetOf(m, 12) == 22 + 3 * w;
  }

  lemma SectionHeaderOffsets(h: SectionHeader, is32: bool)
    ensures
      var m, w := h.Members(is32), Wide(is32);
      && OffsetOf(m, 0) == 0 && OffsetOf(m, 1) == 4 && OffsetOf(m, 2) == 8 && OffsetOf(m, 3) == 8 + w
      && OffsetOf(m, 4) == 8 + 2 * w && OffsetOf(m, 5) == 8 + 3 * w && OffsetOf(m, 6) == 8 + 4 * w
      && OffsetOf(m, 7) == 12 + 4 * w && OffsetOf(m, 8) == 16 + 4 * w && OffsetOf(m, 9) == 16 + 5 * w
      && OffsetOf(m, 10) == 16 + 6 * w
  {
    var m, w := h.Members(is32), Wide(is32);
    assert OffsetOf(m, 1) == 4 && OffsetOf(m, 2) == 8 && OffsetOf(m, 3) == 8 + w && OffsetOf(m, 4) == 8 + 2 * w;
    assert OffsetOf(m, 5) == 8 + 3 * w && OffsetOf(m, 6) == 8 + 4 * w && OffsetOf(m, 7) == 12 + 4 * w;
    assert OffsetOf(m, 8) == 16 + 4 * w && OffsetOf(m, 9) == 16 + 5 * w;
  }

  lemma SymbolEntryOffsets(y: SymbolEntry, is32: bool)
    ensures
      var m := y.Members(is32);
      && OffsetOf(m, 0) == 0 && OffsetOf(m, 1) == 4
      && OffsetOf(m, 2) == (if is32 then 8 else 5) && OffsetOf(m, 3) == (if is32 then 12 else 6)
      && OffsetOf(m, 4) == (if is32 then 13 else 8) && OffsetOf(m, 5) == (if is32 then 14 else 16)
      && OffsetOf(m, 6) == (if is32 then 16 else 24)
  {
    var m := y.Members(is32);
    assert OffsetOf(m, 1) == 4 && OffsetOf(m, 2) == (if is32 then 8 else 5) && OffsetOf(m, 3) == (if is32 then 12 else 6);
    assert OffsetOf(m, 4) == (if is32 then 13 else 8) && OffsetOf(m, 5) == (if is32 then 14 else 16);
  }

  // ---------------------------------------------------------------------------
  // The accessors read the members of the same names
  // ---------------------------------------------------------------------------

  lemma FileHeaderSize(h: FileHeader, is32: bool, little: bool)
    requires |h.ident| == 16
    ensures |h.Bytes(is32, little)| == EhdrSize(is32)
  {
    hide RecordBytes, OffsetOf;
    FileHeaderOffsets(h, is32);
    RecordSize(h.Members(is32), little);
  }

  lemma SectionHeaderSize(h: SectionHeader, is32: bool, little: bool)
    ensures |h.Bytes(is32, little)| == ShdrSize(is32)
  {
    hide RecordBytes, OffsetOf;
    SectionHeaderOffsets(h, is32);
    RecordSize(h.Members(is32), little);
  }

  lemma SymbolEntrySize(y: SymbolEntry, is32: bool, little: bool)
    ensures |y.Bytes(is32, little)| == SymSize(is32)
  {
    hide RecordBytes, OffsetOf;
    SymbolEntryOffsets(y, is32);
    RecordSize(y.Members(is32), little);
  }

  lemma FileHeaderRead(src: seq<byte>, h: FileHeader, is32: bool, little: bool)
    requires |h.ident| == 16 && MembersFit(h.Members(is32)) && Located(src, 0, h.Bytes(is32, little))
    ensures src[..16] == h.ident
    ensures FieldAt(src, little, 0, EType(is32)) == h.kind
    ensures FieldAt(src, little, 0, EMachine(is32)) == h.machine
    ensures FieldAt(src, little, 0, EVersion(is32)) == h.version
    ensures FieldAt(src, little, 0, EShoff(is32)) == h.shoff
    ensures FieldAt(src, little, 0, EShentsize(is32)) == h.shentsize
    ensures FieldAt(src, little, 0, EShnum(is32)) == h.shnum
    ensures FieldAt(src, little, 0, EShstrndx(is32)) == h.shstrndx
  {
    hide RecordBytes, FieldAt, OffsetOf, MembersFit;
    var m := h.Members(is32);
    FileHeaderOffsets(h, is32);
    RecordSize(m, little);
    assert Located(h.Bytes(is32, little), 16, RecordBytes(m, little));
    LocatedInside(src, 0, h.Bytes(is32, little), 16, RecordBytes(m, little));
    assert src[..16] == src[0..|h.Bytes(is32, little)|][..16];
    MemberRead(src, 0, 16, m, little, 0);
    MemberRead(src, 0, 16, m, little, 1);
    MemberRead(src, 0, 16, m, little, 2);
    MemberRead(src, 0, 16, m, little, 5);
    MemberRead(src, 0, 16, m, little, 10);
    MemberRead(src, 0, 16, m, little, 11);
    MemberRead(src, 0, 16, m, little, 12);
  }

  lemma SectionHeaderRead(src: seq<byte>, at: nat, h: SectionHeader, is32: bool, little: bool)
    requires MembersFit(h.Members(is32)) && Located(src, at, h.Bytes(is32, little))
    ensures FieldAt(src, little, at, ShName(is32)) == h.name
    ensures FieldAt(src, little, at, ShType(is32)) == h.kind
    ensures FieldAt(src, little, at, ShOffset(is32)) == h.offset
    ensures FieldAt(src, little, at, ShSize(is32)) == h.size
    ensures FieldAt(src, little, at, ShEntsize(is32)) == h.entsize
  {
    hide RecordBytes, FieldAt, OffsetOf, MembersFit, Located;
    var m := h.Members(is32);
    SectionHeaderOffsets(h, is32);
    MemberRead(src, at, 0, m, little, 0);
    MemberRead(src, at, 0, m, little, 1);
    MemberRead(src, at, 0, m, little, 4);
    MemberRead(src, at, 0, m, little, 5);
    MemberRead(src, at, 0, m, little, 9);
  }

  lemma SymbolEntryRead(src: seq<byte>, at: nat, y: SymbolEntry, is32: bool, little: bool)
    requires MembersFit(y.Members(is32)) && Located(src, at, y.Bytes(is32, little))
    ensures FieldAt(src, little, at, StName(is32)) == y.name
    ensures FieldAt(src, little, at, StValue(is32)) == y.value
    ensures FieldAt(src, little, at, StSize(is32)) == y.size
    ensures FieldAt(src, little, at, StShndx(is32)) == y.shndx
  {
    hide RecordBytes, FieldAt, OffsetOf, MembersFit, Located;
    var m := y.Members(is32);
    SymbolEntryOffsets(y, is32);
    MemberRead(src, at, 0, m, little, 0);
    MemberRead(src, at, 0, m, little, if is32 then 1 else 4);
    MemberRead(src, at, 0, m, little, if is32 then 2 else 5);
    MemberRead(src, at, 0, m, little, if is32 then 5 else 3);
  }

  // ---------------------------------------------------------------------------
  // The swaps of the program
  // ---------------------------------------------------------------------------

  lemma FileHeaderSwapped(h: FileHeader, is32: bool, little: bool)
    requires |h.ident| == 16
    ensures FieldsFit(EhdrFields(is32), |h.Bytes(is32, little)|)
    ensures SwapFields(h.Bytes(is32, little), EhdrFields(is32)) == h.Bytes(is32, !little)
  {
    hide RecordBytes, OffsetOf, SwapFields, Disjoint, FieldsFit;
    var m, fields := h.Members(is32), EhdrFields(is32);
    FileHeaderOffsets(h, is32);
    EhdrFieldsDisjoint(is32);
    assert forall k | 0 <= k < 13 :: fields[k] == Place(16, m, k);
    SwapTurnsRecord(h.ident, m, fields, little);
  }

  lemma SectionHeaderSwapped(h: SectionHeader, is32: bool, little: bool)
    ensures FieldsFit(ShdrFields(is32), |h.Bytes(is32, little)|)
    ensures SwapFields(h.Bytes(is32, little), ShdrFields(is32)) == h.Bytes(is32, !little)
  {
    hide RecordBytes, OffsetOf, SwapFields, Disjoint, FieldsFit;
    var m, fields := h.Members(is32), ShdrFields(is32);
    SectionHeaderOffsets(h, is32);
    ShdrFieldsDisjoint(is32);
    assert forall k | 0 <= k < 6 :: fields[k] == Place(0, m, k);
    assert fields[6] == Place(0, m, 8) && fields[7] == Place(0, m, 9);
    assert fields[8] == Place(0, m, 6) && fields[9] == Place(0, m, 7);
    SwapTurnsRecord([], m, fields, little);
    assert [] + RecordBytes(m, little) == RecordBytes(m, little);
    assert [] + RecordBytes(m, !little) == RecordBytes(m, !little);
  }

  lemma SymbolEntrySwapped(y: SymbolEntry, is32: bool, little: bool)
    ensures FieldsFit(SymFields(is32), |y.Bytes(is32, little)|)
    ensures SwapFields(y.Bytes(is32, little), SymFields(is32)) == y.Bytes(is32, !little)
  {
    hide RecordBytes, OffsetOf, SwapFields, Disjoint, FieldsFit;
    var m, fields := y.Members(is32), SymFields(is32);
    SymbolEntryOffsets(y, is32);
    SymFieldsDisjoint(is32);
    assert fields[0] == Place(0, m, 0) && fields[1] == Place(0, m, if is32 then 1 else 4);
    assert fields[2] == Place(0, m, if is32 then 2 else 5) && fields[3] == Place(0, m, if is32 then 5 else 3);
    SwapTurnsRecord([], m, fields, little);
    assert [] + RecordBytes(m, little) == RecordBytes(m, little);
    assert [] + RecordBytes(m, !little) == RecordBytes(m, !little);
  }

  // ---------------------------------------------------------------------------
  // The table descriptor
  // ---------------------------------------------------------------------------

  predicate DescriptorFits(d: Descriptor) {
    && |d.objectName| < 64 && |d.tableName| < 40 && |d.description| < 32 && |d.tgtFilename| < 20
    && 0 !in d.objectName && 0 !in d.tableName && 0 !in d.description && 0 !in d.tgtFilename
    && d.objectSize < 0x1_0000_0000
  }

  /** A descriptor as a compiler lays it out: four texts, padded with zeros, and a 32-bit size. */
  function DescriptorBytes(d: Descriptor, little: bool): (r: seq<byte>)
    requires DescriptorFits(d)
    ensures |r| == 160
  {
    Padded(d.objectName, 64) + Padded(d.tableName, 40) + Padded(d.description, 32) + Padded(d.tgtFilename, 20) +
    Encode(d.objectSize, 4, little)
  }

  lemma TextOfPadded(s: seq<byte>, text: seq<byte>)
    requires |text| < |s| && 0 !in text && s == Padded(text, |s|)
    ensures Text(s) == text
  {
    assert s[|s| - 1 := 0] == s;
    assert s[|text|] == 0;
    CStringUnique(s, 0, text);
  }

  /** The translator reads each member of it. */
  lemma DescriptorRead(d: Descriptor, little: bool)
    requires DescriptorFits(d)
    ensures DescriptorOf(DescriptorBytes(d, little), little) == d
  {
    hide Padded, Encode, Text, Decode;
    var s := DescriptorBytes(d, little);
    assert Slice(s, OBJECT_NAME) == Padded(d.objectName, 64) && Slice(s, TABLE_NAME) == Padded(d.tableName, 40);
    assert Slice(s, DESCRIPTION) == Padded(d.description, 32) && Slice(s, TGT_FILENAME) == Padded(d.tgtFilename, 20);
    assert Slice(s, OBJECT_SIZE) == Encode(d.objectSize, 4, little);
    TextOfPadded(Slice(s, OBJECT_NAME), d.objectName);
    TextOfPadded(Slice(s, TABLE_NAME), d.tableName);
    TextOfPadded(Slice(s, DESCRIPTION), d.description);
    TextOfPadded(Slice(s, TGT_FILENAME), d.tgtFilename);
    SpanOfWord();
    EncodeRoundTrip(d.objectSize, 4, little);
  }

  lemma SpanOfWord()
    ensures Span(4) == 0x1_0000_0000
  {
    assert Span(0) == 1 && Span(1) == 256 && Span(2) == 0x1_0000;
  }
}
