/** The ELF file header, section header and symbol records in their 32- and 64-bit layouts. */
module ElfLayout {
  import opened Bytes

  const EI_NIDENT := 16
  const EI_CLASS := 4
  const EI_DATA := 5
  const EI_VERSION := 6
  const ELFCLASS32 := 1
  const ELFCLASS64 := 2
  const ELFDATA2LSB := 1
  const ELFDATA2MSB := 2
  const EV_CURRENT := 1
  const SHT_SYMTAB := 2
  const SHT_STRTAB := 3

  function EhdrSize(is32: bool): nat { if is32 then 52 else 64 }
  function ShdrSize(is32: bool): nat { if is32 then 40 else 64 }
  function SymSize(is32: bool): nat { if is32 then 16 else 24 }

  // The multi-byte fields of each record, in the order in which they are swapped.

  const EHDR32: seq<Field> := [
    Field(16, 2), Field(18, 2), Field(20, 4), Field(24, 4), Field(28, 4), Field(32, 4), Field(36, 4),
    Field(40, 2), Field(42, 2), Field(44, 2), Field(46, 2), Field(48, 2), Field(50, 2)]

  const EHDR64: seq<Field> := [
    Field(16, 2), Field(18, 2), Field(20, 4), Field(24, 8), Field(32, 8), Field(40, 8), Field(48, 4),
    Field(52, 2), Field(54, 2), Field(56, 2), Field(58, 2), Field(60, 2), Field(62, 2)]

  const SHDR32: seq<Field> := [
    Field(0, 4), Field(4, 4), Field(8, 4), Field(12, 4), Field(16, 4), Field(20, 4), Field(32, 4),
    Field(36, 4), Field(24, 4), Field(28, 4)]

  const SHDR64: seq<Field> := [
    Field(0, 4), Field(4, 4), Field(8, 8), Field(16, 8), Field(24, 8), Field(32, 8), Field(48, 8),
    Field(56, 8), Field(40, 4), Field(44, 4)]

  const SYM32: seq<Field> := [
    Field(0, 4), Field(4, 4), Field(8, 4), Field(14, 2)]

  const SYM64: seq<Field> := [
    Field(0, 4), Field(8, 8), Field(16, 8), Field(6, 2)]

  function EhdrFields(is32: bool): seq<Field> { if is32 then EHDR32 else EHDR64 }
  function ShdrFields(is32: bool): seq<Field> { if is32 then SHDR32 else SHDR64 }
  function SymFields(is32: bool): seq<Field> { if is32 then SYM32 else SYM64 }

  // The fields the translator uses.

  function EType(is32: bool): Field { Field(16, 2) }
  function EMachine(is32: bool): Field { Field(18, 2) }
  function EVersion(is32: bool): Field { Field(20, 4) }
  function EShoff(is32: bool): Field { if is32 then Field(32, 4) else Field(40, 8) }
  function EShentsize(is32: bool): Field { if is32 then Field(46, 2) else Field(58, 2) }
  function EShnum(is32: bool): Field { if is32 then Field(48, 2) else Field(60, 2) }
  function EShstrndx(is32: bool): Field { if is32 then Field(50, 2) else Field(62, 2) }
  function ShName(is32: bool): Field { Field(0, 4) }
  function ShType(is32: bool): Field { Field(4, 4) }
  function ShOffset(is32: bool): Field { if is32 then Field(16, 4) else Field(24, 8) }
  function ShSize(is32: bool): Field { if is32 then Field(20, 4) else Field(32, 8) }
  function ShEntsize(is32: bool): Field { if is32 then Field(36, 4) else Field(56, 8) }
  function StName(is32: bool): Field { Field(0, 4) }
  function StValue(is32: bool): Field { if is32 then Field(4, 4) else Field(8, 8) }
  function StSize(is32: bool): Field { if is32 then Field(8, 4) else Field(16, 8) }
  function StShndx(is32: bool): Field { if is32 then Field(14, 2) else Field(6, 2) }

  ghost predicate FieldsFit(fields: seq<Field>, size: nat) {
    forall f | f in fields :: f.Fits(size)
  }

  // The swap lists are well formed: their fields lie in the record and do not overlap.

  ghost predicate Ascending(fields: seq<Field>) {
    forall i | 0 <= i < |fields| - 1 :: fields[i].at + fields[i].width <= fields[i + 1].at
  }

  lemma {:induction false} AscendingOrder(fields: seq<Field>, i: nat, j: nat)
    requires Ascending(fields) && i < j < |fields|
    ensures fields[i].Apart(fields[j]) && fields[i].at + fields[i].width <= fields[j].at
    decreases j
  {
    if i < j - 1 {
      AscendingOrder(fields, i, j - 1);
    }
  }

  lemma EhdrFieldsDisjoint(is32: bool)
    ensures FieldsFit(EhdrFields(is32), EhdrSize(is32)) && Disjoint(EhdrFields(is32))
  {
    var fields := EhdrFields(is32);
    forall i, j | 0 <= i < j < |fields| ensures fields[i].Apart(fields[j]) {
      AscendingOrder(fields, i, j);
    }
  }

  lemma Shdr32Disjoint()
    ensures FieldsFit(SHDR32, ShdrSize(true)) && Disjoint(SHDR32)
  {
  }

  lemma Shdr64Disjoint()
    ensures FieldsFit(SHDR64, ShdrSize(false)) && Disjoint(SHDR64)
  {
  }

  lemma ShdrFieldsDisjoint(is32: bool)
    ensures FieldsFit(ShdrFields(is32), ShdrSize(is32)) && Disjoint(ShdrFields(is32))
  {
    hide FieldsFit, Disjoint;
    Shdr32Disjoint();
    Shdr64Disjoint();
  }

  lemma SymFieldsDisjoint(is32: bool)
    ensures FieldsFit(SymFields(is32), SymSize(is32)) && Disjoint(SymFields(is32))
  {
  }

  /** Every field the translator uses is on the swap list of its record. */
  lemma UsedFieldsAreSwapped(is32: bool)
    ensures EType(is32) in EhdrFields(is32) && EMachine(is32) in EhdrFields(is32)
    ensures EVersion(is32) in EhdrFields(is32) && EShoff(is32) in EhdrFields(is32)
    ensures EShentsize(is32) in EhdrFields(is32) && EShnum(is32) in EhdrFields(is32)
    ensures EShstrndx(is32) in EhdrFields(is32)
    ensures ShName(is32) in ShdrFields(is32) && ShType(is32) in ShdrFields(is32)
    ensures ShOffset(is32) in ShdrFields(is32) && ShSize(is32) in ShdrFields(is32)
    ensures ShEntsize(is32) in ShdrFields(is32)
    ensures StName(is32) in SymFields(is32) && StValue(is32) in SymFields(is32)
    ensures StSize(is32) in SymFields(is32) && StShndx(is32) in SymFields(is32)
  {
  }

  lemma SwapNext(before: seq<byte>, fields: seq<Field>, k: nat)
    requires k < |fields| && FieldsFit(fields, |before|)
    ensures SwapFields(before, fields[..k + 1]) == SwapField(SwapFields(before, fields[..k]), fields[k])
  {
    hide SwapField;
    var upTo := fields[..k + 1];
    assert upTo[..k] == fields[..k] && upTo[k] == fields[k];
  }

  lemma SwapNone(before: seq<byte>, fields: seq<Field>)
    ensures SwapFields(before, fields[..0]) == before
  {
  }

  /** Swaps every multi-byte field of a file header in place. */
  method SwapElfHeader(buffer: array<byte>, is32: bool)
    requires buffer.Length == EhdrSize(is32)
    modifies buffer
    ensures FieldsFit(EhdrFields(is32), EhdrSize(is32))
    ensures buffer[..] == SwapFields(old(buffer[..]), EhdrFields(is32))
  {
    EhdrFieldsDisjoint(is32);
    if is32 {
      SwapElfHeader32(buffer);
    } else {
      SwapElfHeader64(buffer);
    }
  }

  method SwapElfHeader32(buffer: array<byte>)
    requires buffer.Length == EhdrSize(true) && FieldsFit(EHDR32, buffer.Length)
    modifies buffer
    ensures buffer[..] == SwapFields(old(buffer[..]), EHDR32)
  {
    hide SwapField, SwapFields;
    ghost var before := buffer[..];
    SwapNone(before, EHDR32);
    SwapUInt16(buffer, 16);
    SwapNext(before, EHDR32, 0);
    SwapUInt16(buffer, 18);
    SwapNext(before, EHDR32, 1);
    SwapUInt32(buffer, 20);
    SwapNext(before, EHDR32, 2);
    SwapUInt32(buffer, 24);
    SwapNext(before, EHDR32, 3);
    SwapUInt32(buffer, 28);
    SwapNext(before, EHDR32, 4);
    SwapUInt32(buffer, 32);
    SwapNext(before, EHDR32, 5);
    SwapUInt32(buffer, 36);
    SwapNext(before, EHDR32, 6);
    SwapUInt16(buffer, 40);
    SwapNext(before, EHDR32, 7);
    SwapUInt16(buffer, 42);
    SwapNext(before, EHDR32, 8);
    SwapUInt16(buffer, 44);
    SwapNext(before, EHDR32, 9);
    SwapUInt16(buffer, 46);
    SwapNext(before, EHDR32, 10);
    SwapUInt16(buffer, 48);
    SwapNext(before, EHDR32, 11);
    SwapUInt16(buffer, 50);
    SwapNext(before, EHDR32, 12);
    assert EHDR32[..13] == EHDR32;
  }

  method SwapElfHeader64(buffer: array<byte>)
    requires buffer.Length == EhdrSize(false) && FieldsFit(EHDR64, buffer.Length)
    modifies buffer
    ensures buffer[..] == SwapFields(old(buffer[..]), EHDR64)
  {
    hide SwapField, SwapFields;
    ghost var before := buffer[..];
    SwapNone(before, EHDR64);
    SwapUInt16(buffer, 16);
    SwapNext(before, EHDR64, 0);
    SwapUInt16(buffer, 18);
    SwapNext(before, EHDR64, 1);
    SwapUInt32(buffer, 20);
    SwapNext(before, EHDR64, 2);
    SwapUInt64(buffer, 24);
    SwapNext(before, EHDR64, 3);
    SwapUInt64(buffer, 32);
    SwapNext(before, EHDR64, 4);
    SwapUInt64(buffer, 40);
    SwapNext(before, EHDR64, 5);
    SwapUInt32(buffer, 48);
    SwapNext(before, EHDR64, 6);
    SwapUInt16(buffer, 52);
    SwapNext(before, EHDR64, 7);
    SwapUInt16(buffer, 54);
    SwapNext(before, EHDR64, 8);
    SwapUInt16(buffer, 56);
    SwapNext(before, EHDR64, 9);
    SwapUInt16(buffer, 58);
    SwapNext(before, EHDR64, 10);
    SwapUInt16(buffer, 60);
    SwapNext(before, EHDR64, 11);
    SwapUInt16(buffer, 62);
    SwapNext(before, EHDR64, 12);
    assert EHDR64[..13] == EHDR64;
  }

  /** Swaps every multi-byte field of a section header in place. */
  method SwapSectionHeader(buffer: array<byte>, is32: bool)
    requires buffer.Length == ShdrSize(is32)
    modifies buffer
    ensures FieldsFit(ShdrFields(is32), ShdrSize(is32))
    ensures buffer[..] == SwapFields(old(buffer[..]), ShdrFields(is32))
  {
    ShdrFieldsDisjoint(is32);
    if is32 {
      SwapSectionHeader32(buffer);
    } else {
      SwapSectionHeader64(buffer);
    }
  }

  method SwapSectionHeader32(buffer: array<byte>)
    requires buffer.Length == ShdrSize(true) && FieldsFit(SHDR32, buffer.Length)
    modifies buffer
    ensures buffer[..] == SwapFields(old(buffer[..]), SHDR32)
  {
    hide SwapField, SwapFields;
    ghost var before := buffer[..];
    SwapNone(before, SHDR32);
    SwapUInt32(buffer, 0);
    SwapNext(before, SHDR32, 0);
    SwapUInt32(buffer, 4);
    SwapNext(before, SHDR32, 1);
    SwapUInt32(buffer, 8);
    SwapNext(before, SHDR32, 2);
    SwapUInt32(buffer, 12);
    SwapNext(before, SHDR32, 3);
    SwapUInt32(buffer, 16);
    SwapNext(before, SHDR32, 4);
    SwapUInt32(buffer, 20);
    SwapNext(before, SHDR32, 5);
    SwapUInt32(buffer, 32);
    SwapNext(before, SHDR32, 6);
    SwapUInt32(buffer, 36);
    SwapNext(before, SHDR32, 7);
    SwapUInt32(buffer, 24);
    SwapNext(before, SHDR32, 8);
    SwapUInt32(buffer, 28);
    SwapNext(before, SHDR32, 9);
    assert SHDR32[..10] == SHDR32;
  }

  method SwapSectionHeader64(buffer: array<byte>)
    requires buffer.Length == ShdrSize(false) && FieldsFit(SHDR64, buffer.Length)
    modifies buffer
    ensures buffer[..] == SwapFields(old(buffer[..]), SHDR64)
  {
    hide SwapField, SwapFields;
    ghost var before := buffer[..];
    SwapNone(before, SHDR64);
    SwapUInt32(buffer, 0);
    SwapNext(before, SHDR64, 0);
    SwapUInt32(buffer, 4);
    SwapNext(before, SHDR64, 1);
    SwapUInt64(buffer, 8);
    SwapNext(before, SHDR64, 2);
    SwapUInt64(buffer, 16);
    SwapNext(before, SHDR64, 3);
    SwapUInt64(buffer, 24);
    SwapNext(before, SHDR64, 4);
    SwapUInt64(buffer, 32);
    SwapNext(before, SHDR64, 5);
    SwapUInt64(buffer, 48);
    SwapNext(before, SHDR64, 6);
    SwapUInt64(buffer, 56);
    SwapNext(before, SHDR64, 7);
    SwapUInt32(buffer, 40);
    SwapNext(before, SHDR64, 8);
    SwapUInt32(buffer, 44);
    SwapNext(before, SHDR64, 9);
    assert SHDR64[..10] == SHDR64;
  }

  /** Swaps every multi-byte field of a symbol in place. */
  method SwapSymbol(buffer: array<byte>, is32: bool)
    requires buffer.Length == SymSize(is32)
    modifies buffer
    ensures FieldsFit(SymFields(is32), SymSize(is32))
    ensures buffer[..] == SwapFields(old(buffer[..]), SymFields(is32))
  {
    SymFieldsDisjoint(is32);
    if is32 {
      SwapSymbol32(buffer);
    } else {
      SwapSymbol64(buffer);
    }
  }

  method SwapSymbol32(buffer: array<byte>)
    requires buffer.Length == SymSize(true) && FieldsFit(SYM32, buffer.Length)
    modifies buffer
    ensures buffer[..] == SwapFields(old(buffer[..]), SYM32)
  {
    hide SwapField, SwapFields;
    ghost var before := buffer[..];
    SwapNone(before, SYM32);
    SwapUInt32(buffer, 0);
    SwapNext(before, SYM32, 0);
    SwapUInt32(buffer, 4);
    SwapNext(before, SYM32, 1);
    SwapUInt32(buffer, 8);
    SwapNext(before, SYM32, 2);
    SwapUInt16(buffer, 14);
    SwapNext(before, SYM32, 3);
    assert SYM32[..4] == SYM32;
  }

  method SwapSymbol64(buffer: array<byte>)
    requires buffer.Length == SymSize(false) && FieldsFit(SYM64, buffer.Length)
    modifies buffer
    ensures buffer[..] == SwapFields(old(buffer[..]), SYM64)
  {
    hide SwapField, SwapFields;
    ghost var before := buffer[..];
    SwapNone(before, SYM64);
    SwapUInt32(buffer, 0);
    SwapNext(before, SYM64, 0);
    SwapUInt64(buffer, 8);
    SwapNext(before, SYM64, 1);
    SwapUInt64(buffer, 16);
    SwapNext(before, SYM64, 2);
    SwapUInt16(buffer, 6);
    SwapNext(before, SYM64, 3);
    assert SYM64[..4] == SYM64;
  }
}
