/** What the section and symbol passes find, said without the loops that find it. */
module ElfTables {
  import opened Common
  import opened Bytes
  import opened ElfLayout
  import opened ElfSpec

  // ---------------------------------------------------------------------------
  // The string table
  // ---------------------------------------------------------------------------

  predicate IsStringTable(s: Section) {
    s.name.Some? && s.kind == SHT_STRTAB
  }

  predicate IsDotStrtab(s: Section) {
    IsStringTable(s) && s.name.value == Ascii(".strtab")
  }

  /** The i-th section is a string table other than the one for section names. */
  predicate IsOtherStrings(s: seq<Section>, names: nat, i: nat)
    requires i < |s|
  {
    IsStringTable(s[i]) && i != names
  }

  ghost predicate NoDotStrtab(s: seq<Section>, from: nat) {
    forall j | from <= j < |s| :: !IsDotStrtab(s[j])
  }

  ghost predicate NoOtherStrings(s: seq<Section>, names: nat, to: nat)
    requires to <= |s|
  {
    forall j | 0 <= j < to :: !IsOtherStrings(s, names, j)
  }

  /** With nonzero offsets, the last section named .strtab is chosen wherever it sits. */
  lemma {:induction false} DotStrtabIsChosen(s: seq<Section>, names: nat, is32: bool, i: nat)
    requires forall j | 0 <= j < |s| && IsStringTable(s[j]) :: s[j].offset != 0
    requires i < |s| && IsDotStrtab(s[i]) && NoDotStrtab(s, i + 1)
    ensures ScanSections(s, names, is32).strtab == s[i].offset
    decreases |s|
  {
    var front := s[..|s| - 1];
    if i < |s| - 1 {
      assert forall j | i + 1 <= j < |front| :: front[j] == s[j];
      DotStrtabIsChosen(front, names, is32, i);
    }
  }

  lemma {:induction false} NothingIsChosen(s: seq<Section>, names: nat, is32: bool)
    requires NoDotStrtab(s, 0) && NoOtherStrings(s, names, |s|)
    ensures ScanSections(s, names, is32).strtab == 0
    decreases |s|
  {
    if s != [] {
      var front := s[..|s| - 1];
      assert !IsDotStrtab(s[|s| - 1]) && !IsOtherStrings(s, names, |s| - 1);
      forall j | 0 <= j < |front| ensures !IsDotStrtab(front[j]) && !IsOtherStrings(front, names, j) {
        assert front[j] == s[j] && !IsDotStrtab(s[j]) && !IsOtherStrings(s, names, j);
      }
      NothingIsChosen(front, names, is32);
    }
  }

  /** Without a .strtab, the first string table that does not hold section names is chosen. */
  lemma {:induction false} FirstOtherIsChosen(s: seq<Section>, names: nat, is32: bool, i: nat)
    requires forall j | 0 <= j < |s| && IsStringTable(s[j]) :: s[j].offset != 0
    requires NoDotStrtab(s, 0)
    requires i < |s| && IsOtherStrings(s, names, i) && NoOtherStrings(s, names, i)
    ensures ScanSections(s, names, is32).strtab == s[i].offset
    decreases |s|
  {
    var front := s[..|s| - 1];
    assert !IsDotStrtab(s[|s| - 1]);
    forall j | 0 <= j < |front| ensures !IsDotStrtab(front[j]) {
      assert front[j] == s[j] && !IsDotStrtab(s[j]);
    }
    forall j | 0 <= j < i ensures j < |front| && !IsOtherStrings(front, names, j) {
      assert !IsOtherStrings(s, names, j);
    }
    if i < |s| - 1 {
      FirstOtherIsChosen(front, names, is32, i);
    } else {
      NothingIsChosen(front, names, is32);
    }
  }

  // ---------------------------------------------------------------------------
  // The symbol table
  // ---------------------------------------------------------------------------

  predicate IsSymbolTable(s: Section) {
    s.name.Some? && s.kind == SHT_SYMTAB
  }

  lemma ZeroStopsString(src: seq<byte>, at: nat, p: nat)
    requires at <= p < |src| && src[p] == 0
    ensures at + |CString(src, at)| <= p
  {
    var text := CString(src, at);
    assert forall k | 0 <= k < |text| :: src[at + k] == text[k] && text[k] in text;
    assert p == at + (p - at);
  }

  /** A name can be read exactly when there is a zero byte among the next sixty. */
  lemma NamesThatFit(src: seq<byte>, at: int)
    ensures StringFits(src, at) <==> 0 <= at && exists p :: at <= p < at + 60 && p < |src| && src[p] == 0
  {
    if StringFits(src, at) {
      assert src[at + |CString(src, at)|] == 0;
    }
    forall p | 0 <= at <= p < at + 60 && p < |src| && src[p] == 0 ensures StringFits(src, at) {
      ZeroStopsString(src, at, p);
    }
  }

  /** The machines of the translator's table. */
  lemma KnownMachines(v: int)
    ensures v in KNOWN_MACHINES <==>
      || 0 <= v <= 5 || 7 <= v <= 10 || v == 15 || 17 <= v <= 23 || 36 <= v <= 120 || 131 <= v <= 144
      || 160 <= v <= 171 || 173 <= v <= 181 || v == 183 || 185 <= v <= 224 || v == 243
    ensures v in KNOWN_TYPES <==> 0 <= v <= 4
  {
    hide Range;
  }

  /** The last symbol table determines the symbol count, the entry size and where the entries start. */
  lemma {:induction false} LastSymbolTableIsUsed(s: seq<Section>, names: nat, is32: bool, i: nat)
    requires i < |s| && IsSymbolTable(s[i]) && forall j | i < j < |s| :: !IsSymbolTable(s[j])
    ensures
      var t := ScanSections(s, names, is32);
      && t.symtab == Int32(s[i].offset + SymSize(is32))
      && t.entsize == s[i].entsize
      && t.count == if s[i].entsize == 0 then 0 else UInt64(s[i].size / s[i].entsize - 1)
    decreases |s|
  {
    var front := s[..|s| - 1];
    if i < |s| - 1 {
      assert forall j | i < j < |front| :: front[j] == s[j];
      assert !IsSymbolTable(s[|s| - 1]);
      LastSymbolTableIsUsed(front, names, is32, i);
    }
  }

  /** Where the k-th entry of a table of fixed-size entries starts. */
  function EntryPos(table: Section, k: nat): nat {
    table.offset + k * table.entsize
  }

  /** What the section pass leaves for a symbol table of n entries below 2^31. */
  ghost predicate FromTable(t: Tables, table: Section, n: nat, is32: bool) {
    && n > 0 && table.entsize > 0
    && table.size == n * table.entsize && EntryPos(table, n) < 0x8000_0000
    && t.symtab == table.offset + SymSize(is32) && t.entsize == table.entsize && t.count == n - 1
  }

  lemma TableIsExact(s: Section, n: nat, is32: bool, t: Tables)
    requires IsSymbolTable(s) && n > 0 && s.entsize >= SymSize(is32)
    requires s.size == n * s.entsize && EntryPos(s, n) < 0x8000_0000
    ensures FromTable(NoteSection(t, s, false, is32), s, n, is32)
  {
    hide UInt64, Int32;
    DivideExactly(n, s.entsize);
    ProductAtLeast(n, s.entsize);
    SmallNumber(s.offset + SymSize(is32));
    SmallCount(n, s.entsize);
  }

  lemma SmallNumber(v: nat)
    requires v < 0x8000_0000
    ensures Int32(v) == v && UInt64(v) == v
  {
  }

  lemma SmallCount(n: nat, size: nat)
    requires n > 0 && size > 0 && n * size < 0x8000_0000
    ensures UInt64(n - 1) == n - 1
  {
    assert n <= n * size;
    SmallNumber(n - 1);
  }

  lemma DivideExactly(n: nat, size: nat)
    requires size > 0
    ensures n * size / size == n
  {
    QuotientUnique(n * size, size, n);
  }

  lemma QuotientUnique(a: nat, b: nat, q: nat)
    requires b > 0 && q * b <= a < (q + 1) * b
    ensures a / b == q
  {
    var r := a / b;
    if r < q {
      ProductMonotone(r + 1, q, b);
    } else if r > q {
      ProductMonotone(q + 1, r, b);
    }
  }

  lemma ProductAtLeast(n: nat, size: nat)
    requires n > 0
    ensures size <= n * size
  {
    ProductMonotone(1, n, size);
  }

  /** The i-th symbol read is entry i + 1 of the table, and the read stays inside the section. */
  predicate Covers(t: Tables, table: Section, is32: bool, i: nat) {
    && SymbolPos(t, i) == EntryPos(table, i + 1)
    && table.offset < SymbolPos(t, i)
    && SymbolPos(t, i) + SymSize(is32) <= table.offset + table.size
  }

  /**
   * Symbol table coverage: with the entry size of the class, the i-th symbol read is entry i + 1, in order,
   * and lies inside the section; so every entry but the reserved entry 0 is read exactly once.
   */
  lemma SymbolCoverage(t: Tables, table: Section, n: nat, is32: bool, i: nat)
    requires FromTable(t, table, n, is32) && table.entsize == SymSize(is32) && i < t.count
    ensures Covers(t, table, is32, i)
  {
    ProductMonotone(i + 2, n, table.entsize);
    assert (i + 2) * table.entsize == i * table.entsize + 2 * table.entsize;
  }

  /** The symbols read are the entries 1, 2, ... of the table exactly when its entry size is that of the class. */
  lemma CoverageNeedsEntrySize(t: Tables, table: Section, n: nat, is32: bool)
    requires FromTable(t, table, n, is32) && t.count > 0
    ensures (forall i | 0 <= i < t.count :: Covers(t, table, is32, i))
       <==> table.entsize == SymSize(is32)
  {
    if table.entsize == SymSize(is32) {
      forall i | 0 <= i < t.count ensures Covers(t, table, is32, i) {
        SymbolCoverage(t, table, n, is32, i);
      }
    } else {
      ProductMonotone(1, n, table.entsize);
      assert 0 * t.entsize == 0;
      assert !Covers(t, table, is32, 0);
    }
  }
}
