/**
 The tables of the ELF format that the layout depends on, checked against what they
 come from: header sizes are the sums of their fields, the alignment of a type is its
 widest field, and one whole file is laid out to the byte.
 */
module ElfFormat {
  import opened ElfRound
  import opened ElfLayout
  import opened ElfFile

  /** The width of an address, an offset or an extended word. */
  function Address(class32: bool): nat { if class32 then 4 else 8 }

  // ---------------------------------------------------------------- header sizes

  /** The sizes of the three headers, field by field. */
  lemma HeaderSizes(class32: bool)
    ensures var ident, half, word, addr := 16, 2, 4, Address(class32);
            // e_ident, type, machine, version, entry, phoff, shoff, flags, and ehsize to shstrndx
            && EhdrSize(class32) == ident + half + half + word + addr + addr + addr + word + 6 * half
            // two words (type and flags), offset, vaddr, paddr, filesz, memsz, align
            && PhdrSize(class32) == word + word + addr + addr + addr + addr + addr + addr
            // name, type, flags, addr, offset, size, link, info, addralign, entsize
            && ShdrSize(class32) == word + word + addr + addr + addr + addr + word + word + addr + addr
            && TableAlign(class32) == addr
  {
  }

  // ---------------------------------------------------------------- section types

  const SHT_PROGBITS := 1
  const SHT_SYMTAB := 2
  const SHT_STRTAB := 3
  const SHT_RELA := 4
  const SHT_HASH := 5
  const SHT_DYNAMIC := 6
  const SHT_NOTE := 7
  const SHT_REL := 9
  const SHT_DYNSYM := 11
  const SHT_INIT_ARRAY := 14
  const SHT_FINI_ARRAY := 15
  const SHT_PREINIT_ARRAY := 16
  const SHT_GROUP := 17
  const SHT_SYMTAB_SHNDX := 18
  const SHT_SUNW_MOVE := 0x6ffffffa
  const SHT_SUNW_SYMINFO := 0x6ffffffc
  const SHT_GNU_VERDEF := 0x6ffffffd
  const SHT_GNU_VERNEED := 0x6ffffffe

  /** The data types a section can hold. */
  datatype Kind = Addr | Byte | Dyn | Move | Note | Rel | Rela | Syminfo | Sym | Vdef | Vneed | Word

  /** The number of a data type in libelf.h. */
  function Code(k: Kind): int {
    match k
    case Addr => 0
    case Byte => 1
    case Dyn => 3
    case Move => 7
    case Note => 9
    case Rel => 12
    case Rela => 13
    case Syminfo => 17
    case Sym => 18
    case Vdef => 19
    case Vneed => 20
    case Word => 21
  }

  function Kinds(): map<int, Kind> {
    map[SHT_DYNAMIC := Dyn, SHT_DYNSYM := Sym, SHT_FINI_ARRAY := Addr, SHT_GROUP := Word, SHT_HASH := Word,
        SHT_INIT_ARRAY := Addr, SHT_NOBITS := Byte, SHT_NOTE := Note, SHT_PREINIT_ARRAY := Addr, SHT_PROGBITS := Byte,
        SHT_REL := Rel, SHT_RELA := Rela, SHT_STRTAB := Byte, SHT_SYMTAB := Sym, SHT_SYMTAB_SHNDX := Word,
        SHT_GNU_VERDEF := Vdef, SHT_GNU_VERNEED := Vneed, SHT_SUNW_MOVE := Move, SHT_SUNW_SYMINFO := Syminfo]
  }

  lemma XlateIs(t: int)
    ensures XlateShtype(t) == if t in Kinds() then Code(Kinds()[t]) else -1
  {
  }

  /** The widths of the fields of a data type in a file. */
  function KindFields(k: Kind, class32: bool): seq<nat> {
    var a := Address(class32);
    match k
    case Addr => [a]
    case Byte => [1]
    case Dyn => [a, a]
    case Move => [8, a, a, 2, 2]
    case Note => [4, 4, 4]
    case Rel => [a, a]
    case Rela => [a, a, a]
    case Syminfo => [2, 2]
    case Sym => if class32 then [4, 4, 4, 1, 1, 2] else [4, 1, 1, 2, 8, 8]
    case Vdef => [2, 2, 2, 2, 4, 4, 4]
    case Vneed => [2, 2, 4, 4, 4]
    case Word => [4]
  }

  /** A type is aligned in a file like its widest field. */
  lemma FalignIsWidest(k: Kind, class32: bool)
    ensures var fields, a := KindFields(k, class32), Falign(Code(k), class32);
            a in fields && forall i :: 0 <= i < |fields| ==> fields[i] <= a
  {
    var fields := KindFields(k, class32);
    assert k.Sym? && !class32 ==> fields[4] == 8;
    assert k.Vdef? ==> fields[4] == 4;
    assert k.Vneed? ==> fields[2] == 4;
    assert !(k.Vdef? || k.Vneed? || (k.Sym? && !class32)) ==> fields[0] == Falign(Code(k), class32);
  }

  // ------------------------------------------------------------------ one whole file

  /** A 64-bit object with one program header: 20 bytes of code aligned to 16, one symbol and a string table. */
  function SampleConf(): Conf { Conf(false, 1, false) }

  function Sample(): seq<Section> {
    [Section(1, SHT_PROGBITS, 16, 0, 0, true, [Data(1, 1, 16, 20, 0, 0)], 0, 0),
     Section(2, SHT_SYMTAB, 0, 0, 0, true, [Data(18, 1, 8, 24, 0, 0)], 0, 0),
     Section(3, SHT_STRTAB, 0, 0, 0, true, [Data(1, 1, 1, 3, 0, 0), Data(1, 1, 2, 4, 0, 0)], 0, 0)]
  }

  /** Program header at 64, code at 128, symbol at 152, strings at 176 and 180, section headers at 184, end at 376. */
  lemma SampleLayout()
    ensures var conf, scns := SampleConf(), Sample();
            && AllDirty(conf, scns) && AllAcceptable(conf, scns)
            && PhOff(conf, 1) == 64 && PhEnd(conf, 1) == 120
            && ShOff(conf, 1, scns) == 184 && FileEnd(conf, 1, scns) == 376
            && SectionsEnd(conf, scns, 120, 1) == 148 && SectionsEnd(conf, scns, 120, 2) == 176
            && SectionsEnd(conf, scns, 120, 3) == 184
    ensures FinalAlign(SampleConf(), Sample()[0]) == 16
    ensures FinalAlign(SampleConf(), Sample()[1]) == 8
    ensures FinalAlign(SampleConf(), Sample()[2]) == 2
    ensures OffsetOf(Sample()[2].data, 2, 0) == 0 && OffsetOf(Sample()[2].data, 2, 1) == 4
  {
    hide ElfLayout.FinalAlign, ElfLayout.Acceptable, ElfLayout.MaxAlign, RoundUp, ElfLayout.SizeTo;
    SampleAcceptable();
    SampleAligned();
    var conf, scns := SampleConf(), Sample();
    SampleSizes();
    RoundUpIs(64, 8, 64);
    RoundUpIs(120, 16, 128);
    RoundUpIs(148, 8, 152);
    RoundUpIs(176, 2, 176);
    RoundUpIs(184, 8, 184);
    assert EndOf(conf, scns[0], 120) == 148;
    assert EndOf(conf, scns[1], 148) == 176;
    assert EndOf(conf, scns[2], 176) == 184;
    assert SectionsEnd(conf, scns, 120, 0) == 120;
    assert SectionsEnd(conf, scns, 120, 1) == 148;
    assert SectionsEnd(conf, scns, 120, 2) == 176;
    assert SectionsEnd(conf, scns, 120, 3) == 184;
  }

  lemma RoundUpIs(x: nat, a: nat, r: nat)
    requires a > 0 && x <= r < x + a && r % a == 0
    ensures RoundUp(x, a) == r
  {
    hide RoundUp;
    SameMultiple(RoundUp(x, a), r, a);
  }

  lemma SameMultiple(p: nat, q: nat, a: nat)
    requires a > 0 && p % a == 0 && q % a == 0 && p < q + a && q < p + a
    ensures p == q
  {
    Apart(p, q, a, p / a, q / a);
  }

  lemma Apart(p: nat, q: nat, a: nat, i: nat, j: nat)
    requires p == a * i && q == a * j && p < q + a && q < p + a
    ensures i == j
  {
    assert a * (j - i) == a * j - a * i && a * (i - j) == a * i - a * j;
    if i < j { Scaled(a, j - i); }
    if j < i { Scaled(a, i - j); }
  }

  lemma SampleAcceptable()
    ensures AllDirty(SampleConf(), Sample()) && AllAcceptable(SampleConf(), Sample())
    ensures Acceptable(SampleConf(), Sample()[0]) && Acceptable(SampleConf(), Sample()[1])
    ensures Acceptable(SampleConf(), Sample()[2])
  {
    hide Sample, SampleConf, ElfLayout.Acceptable, ElfLayout.Occupies, ElfFile.AllDirty;
    SampleDirty();
    FirstAcceptable();
    SecondAcceptable();
    ThirdAcceptable();
  }

  lemma SampleDirty()
    ensures AllDirty(SampleConf(), Sample()) && |Sample()| == 3
  {
    hide IsPow2, Occupies;
  }

  lemma FirstAcceptable()
    ensures Acceptable(SampleConf(), Sample()[0])
  {
    assert IsPow2(16);
  }

  lemma SecondAcceptable()
    ensures Acceptable(SampleConf(), Sample()[1])
  {
    assert IsPow2(8);
  }

  lemma ThirdAcceptable()
    ensures Acceptable(SampleConf(), Sample()[2])
  {
    assert IsPow2(1) && IsPow2(2);
  }

  lemma SampleAligned()
    ensures MaxAlign(Sample()[0].data, 1) == FinalAlign(SampleConf(), Sample()[0]) == 16
    ensures MaxAlign(Sample()[1].data, 1) == FinalAlign(SampleConf(), Sample()[1]) == 8
    ensures MaxAlign(Sample()[2].data, 2) == FinalAlign(SampleConf(), Sample()[2]) == 2
  {
    assert MaxAlign(Sample()[2].data, 1) == 1;
  }

  lemma SampleSizes()
    ensures SizeTo(Sample()[0].data, 16, 1) == 20 && SizeTo(Sample()[1].data, 8, 1) == 24
    ensures SizeTo(Sample()[2].data, 2, 2) == 8
    ensures OffsetOf(Sample()[2].data, 2, 0) == 0 && OffsetOf(Sample()[2].data, 2, 1) == 4
  {
    hide RoundUp;
    RoundUpIs(0, 16, 0);
    RoundUpIs(0, 8, 0);
    RoundUpIs(0, 2, 0);
    RoundUpIs(3, 2, 4);
    assert SizeTo(Sample()[0].data, 16, 0) == 0;
    assert SizeTo(Sample()[1].data, 8, 0) == 0;
    assert SizeTo(Sample()[2].data, 2, 0) == 0;
    assert SizeTo(Sample()[2].data, 2, 1) == 3;
  }
}
