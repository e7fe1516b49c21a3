/**
 The whole-file layout of libelf (elf_update.c): _libelf_resync_sections and
 _libelf_resync_elf.
 */
module ElfFile {
  import opened ElfRound
  import opened ElfLayout

  // ------------------------------------------------- sizes fixed by the format

  function EhdrSize(class32: bool): u64 { if class32 then 52 else 64 }
  function PhdrSize(class32: bool): u64 { if class32 then 32 else 56 }
  function ShdrSize(class32: bool): u64 { if class32 then 40 else 64 }
  function TableAlign(class32: bool): (a: u64) ensures a > 0 { if class32 then 4 else 8 }

  const T32: nat := 0x1_0000_0000

  // --------------------------------------------- the layout in unbounded arithmetic

  /** The library does the layout and every section that occupies file space is dirty. */
  ghost predicate AllDirty(conf: Conf, scns: seq<Section>) {
    !conf.layout && forall i :: 0 <= i < |scns| && Occupies(scns[i]) ==> scns[i].dirty
  }

  ghost predicate AllAcceptable(conf: Conf, scns: seq<Section>) {
    forall i :: 0 <= i < |scns| && Occupies(scns[i]) ==> Acceptable(conf, scns[i])
  }

  /** The end of the first k sections when they start at rc. */
  ghost function SectionsEnd(conf: Conf, scns: seq<Section>, rc: nat, k: nat): (r: nat)
    requires AllAcceptable(conf, scns) && k <= |scns|
  {
    if k == 0 then rc
    else if Occupies(scns[k - 1]) then EndOf(conf, scns[k - 1], SectionsEnd(conf, scns, rc, k - 1))
    else SectionsEnd(conf, scns, rc, k - 1)
  }

  ghost function PhOff(conf: Conf, phnum: nat): nat {
    if phnum > 0 then RoundUp(EhdrSize(conf.class32), TableAlign(conf.class32)) else 0
  }

  ghost function PhEnd(conf: Conf, phnum: nat): nat {
    if phnum > 0 then PhOff(conf, phnum) + PhdrSize(conf.class32) * phnum else EhdrSize(conf.class32)
  }

  ghost function BodyEnd(conf: Conf, phnum: nat, scns: seq<Section>): nat
    requires AllAcceptable(conf, scns)
  {
    SectionsEnd(conf, scns, PhEnd(conf, phnum), |scns|)
  }

  ghost function ShOff(conf: Conf, phnum: nat, scns: seq<Section>): nat
    requires AllAcceptable(conf, scns)
  {
    if |scns| > 0 then RoundUp(BodyEnd(conf, phnum, scns), TableAlign(conf.class32)) else 0
  }

  ghost function FileEnd(conf: Conf, phnum: nat, scns: seq<Section>): nat
    requires AllAcceptable(conf, scns)
  {
    if |scns| > 0 then ShOff(conf, phnum, scns) + ShdrSize(conf.class32) * |scns| else BodyEnd(conf, phnum, scns)
  }

  lemma {:induction false} EndMonotone(conf: Conf, scns: seq<Section>, rc: nat, j: nat, k: nat)
    requires AllAcceptable(conf, scns) && j <= k <= |scns|
    ensures SectionsEnd(conf, scns, rc, j) <= SectionsEnd(conf, scns, rc, k)
  {
    hide EndOf;
    if j < k {
      EndMonotone(conf, scns, rc, j, k - 1);
      if Occupies(scns[k - 1]) { EndGrows(conf, scns[k - 1], SectionsEnd(conf, scns, rc, k - 1)); }
    }
  }

  lemma EndGrows(conf: Conf, s: Section, rc: nat)
    requires Acceptable(conf, s)
    ensures EndOf(conf, s, rc) >= rc
  {
  }

  // ------------------------------------------------------------- the section pass

  /** t is what the extents computation made of s when the file was filled up to rc. */
  ghost predicate LaidAt(conf: Conf, s: Section, t: Section, rc: nat) {
    if Occupies(s) then rc < W && Extents(conf, s, rc).Done? && t == Extents(conf, s, rc).s else t == s
  }

  ghost predicate Chained(conf: Conf, before: seq<Section>, after: seq<Section>, rc: nat, k: nat)
    requires AllAcceptable(conf, before)
  {
    && k <= |before| == |after|
    && forall i :: 0 <= i < k ==> LaidAt(conf, before[i], after[i], SectionsEnd(conf, before, rc, i))
  }

  /** Library layout that fits: what both passes rely on. */
  ghost predicate Fits(conf: Conf, scns: seq<Section>, rc: nat) {
    AllDirty(conf, scns) && AllAcceptable(conf, scns) && SectionsEnd(conf, scns, rc, |scns|) < HALF
  }

  /** First pass, one section. */
  lemma ChainStep(conf: Conf, before: seq<Section>, after: seq<Section>, rc: nat, k: nat, nrc: u64)
    requires Fits(conf, before, rc) && k < |before| && Chained(conf, before, after, rc, k) && after[k] == before[k]
    requires nrc == SectionsEnd(conf, before, rc, k)
    ensures var r := Extents(conf, before[k], nrc);
            && r.Done? && r.rc == SectionsEnd(conf, before, rc, k + 1)
            && Chained(conf, before, after[k := r.s], rc, k + 1)
  {
    hide Extents, EndOf, Acceptable, WellPlaced, Packed, AlignmentStored;
    EndMonotone(conf, before, rc, k + 1, |before|);
    if Occupies(before[k]) {
      LibraryLayout(conf, before[k], nrc);
    } else {
      NothingToLay(conf, before[k], nrc);
    }
  }

  lemma NothingToLay(conf: Conf, s: Section, rc: u64)
    requires !Occupies(s)
    ensures Extents(conf, s, rc) == Done(s, rc)
  {
  }

  /** Second pass, one section: it starts at or after rc, so the list is left alone. */
  lemma ChainWalk(conf: Conf, before: seq<Section>, after: seq<Section>, rc: nat, k: nat)
    requires Fits(conf, before, rc) && k < |before| && Chained(conf, before, after, rc, |before|)
    ensures Occupies(after[k]) == Occupies(before[k])
    ensures Occupies(after[k]) ==> after[k].sOffset >= SectionsEnd(conf, before, rc, k)
    ensures Occupies(after[k]) ==> (after[k].sOffset + after[k].sSize) % W == after[k].sOffset + after[k].sSize
    ensures Occupies(after[k]) ==> after[k].sOffset + after[k].sSize == SectionsEnd(conf, before, rc, k + 1)
    ensures !Occupies(after[k]) ==> SectionsEnd(conf, before, rc, k + 1) == SectionsEnd(conf, before, rc, k)
  {
    hide Extents, EndOf, Acceptable, WellPlaced, SectionsEnd, ElfLayout.FinalAlign, Field, Packed, AlignmentStored;
    EndMonotone(conf, before, rc, k + 1, |before|);
    EndMonotone(conf, before, rc, k, k + 1);
    assert LaidAt(conf, before[k], after[k], SectionsEnd(conf, before, rc, k));
    if Occupies(before[k]) {
      SectionEndStep(conf, before, rc, k);
      LibraryLayout(conf, before[k], SectionsEnd(conf, before, rc, k));
      SmallMod(SectionsEnd(conf, before, rc, k + 1));
    } else {
      SectionSkipped(conf, before, rc, k);
    }
  }

  lemma SectionSkipped(conf: Conf, scns: seq<Section>, rc: nat, i: nat)
    requires AllAcceptable(conf, scns) && i < |scns| && !Occupies(scns[i])
    ensures SectionsEnd(conf, scns, rc, i + 1) == SectionsEnd(conf, scns, rc, i)
  {
  }

  lemma ChainStart(conf: Conf, before: seq<Section>, rc: nat)
    requires AllAcceptable(conf, before)
    ensures Chained(conf, before, before, rc, 0) && SectionsEnd(conf, before, rc, 0) == rc
  {
  }

  datatype Relisted = Overlap | Relisted(list: seq<Section>)

  /** STAILQ_REMOVE followed by _libelf_insert_section: before the first section that starts after s ends. */
  function Reinsert(list: seq<Section>, s: Section): Relisted {
    InsertFrom(Without(list, s.ndx), s, 0)
  }

  /** The list without the first section of that number. */
  function Without(list: seq<Section>, ndx: int): seq<Section> {
    if list == [] then [] else if list[0].ndx == ndx then list[1..] else [list[0]] + Without(list[1..], ndx)
  }

  ghost predicate FirstOf(list: seq<Section>, ndx: int, i: int) {
    0 <= i < |list| && list[i].ndx == ndx && forall j :: 0 <= j < i ==> list[j].ndx != ndx
  }

  /** Exactly that section is taken out. */
  lemma {:induction false} WithoutIs(list: seq<Section>, ndx: int, i: int)
    requires FirstOf(list, ndx, i)
    ensures Without(list, ndx) == list[..i] + list[i + 1..]
  {
    if i > 0 {
      WithoutIs(list[1..], ndx, i - 1);
      assert list[1..][..i - 1] == list[1..i];
      assert list[..i] == [list[0]] + list[1..i];
    }
  }

  function InsertFrom(list: seq<Section>, s: Section, k: nat): Relisted
    requires k <= |list|
    decreases |list| - k
  {
    if k == |list| then Relisted(list + [s])
    else if (list[k].sOffset + list[k].sSize) % W < s.sOffset then InsertFrom(list, s, k + 1)
    else if (s.sOffset + s.sSize) % W < list[k].sOffset then Relisted(list[..k] + [s] + list[k..])
    else Overlap
  }

  /** t ends before s starts. */
  ghost predicate EndsBefore(t: Section, s: Section) {
    (t.sOffset + t.sSize) % W < s.sOffset
  }

  /** Every section of the list ends before the next one starts. */
  ghost predicate Ascending(list: seq<Section>) {
    forall i, j :: 0 <= i < j < |list| ==> EndsBefore(list[i], list[j])
  }

  /**
   Into an ascending list of other sections a section is put where it belongs, and refused exactly
   when it meets one of them.
   */
  lemma {:induction false} InsertFromIs(list: seq<Section>, s: Section, k: nat)
    requires k <= |list| && Ascending(list) && forall i :: 0 <= i < k ==> EndsBefore(list[i], s)
    requires forall i :: 0 <= i < |list| ==> list[i].sOffset + list[i].sSize < W
    requires s.sOffset + s.sSize < W
    ensures var r := InsertFrom(list, s, k);
            && (r.Overlap? <==> exists i :: 0 <= i < |list| && !EndsBefore(list[i], s) && !EndsBefore(s, list[i]))
            && (r.Relisted? ==> Ascending(r.list) && multiset(r.list) == multiset(list) + multiset{s})
    decreases |list| - k
  {
    if k == |list| {
      assert multiset(list + [s]) == multiset(list) + multiset{s};
    } else if EndsBefore(list[k], s) {
      InsertFromIs(list, s, k + 1);
    } else if EndsBefore(s, list[k]) {
      InsertedIs(list, s, k);
    }
  }

  lemma InsertedIs(list: seq<Section>, s: Section, k: nat)
    requires k < |list| && Ascending(list) && (forall i :: 0 <= i < k ==> EndsBefore(list[i], s))
    requires forall i :: 0 <= i < |list| ==> list[i].sOffset + list[i].sSize < W
    requires EndsBefore(s, list[k]) && s.sOffset + s.sSize < W
    ensures Ascending(list[..k] + [s] + list[k..])
    ensures multiset(list[..k] + [s] + list[k..]) == multiset(list) + multiset{s}
    ensures forall i :: k <= i < |list| ==> EndsBefore(s, list[i])
  {
    forall i | k <= i < |list| ensures EndsBefore(s, list[i]) {
      if i > k { assert EndsBefore(list[k], list[i]); SmallMod(list[k].sOffset + list[k].sSize); }
    }
    var r := list[..k] + [s] + list[k..];
    forall i, j | 0 <= i < j < |r| ensures EndsBefore(r[i], r[j]) {
      var a, b := if i < k then i else i - 1, if j < k then j else j - 1;
      if i != k && j != k { assert EndsBefore(list[a], list[b]); }
    }
    assert list == list[..k] + list[k..];
  }

  // ------------------------------------------------------------ the whole file

  /** The regions of the file, in ascending order and without overlap, each aligned as it must be. */
  ghost predicate FileLayout(conf: Conf, phnum: nat, scns: seq<Section>, ph: nat, sh: nat, rc: nat) {
    var align := TableAlign(conf.class32);
    var phEnd := if phnum > 0 then ph + PhdrSize(conf.class32) * phnum else EhdrSize(conf.class32);
    && (phnum > 0 ==> EhdrSize(conf.class32) <= ph < EhdrSize(conf.class32) + align && ph % align == 0)
    && (forall i :: 0 <= i < |scns| && Occupies(scns[i]) ==> phEnd <= scns[i].sOffset && WellPlaced(scns[i]))
    && (forall i, j :: 0 <= i < j < |scns| && Occupies(scns[i]) && Occupies(scns[j]) ==>
        scns[i].sOffset + scns[i].sSize <= scns[j].sOffset)
    && (|scns| > 0 ==>
          && sh % align == 0 && phEnd <= sh
          && (forall i :: 0 <= i < |scns| && Occupies(scns[i]) ==> scns[i].sOffset + scns[i].sSize <= sh)
          && (sh < phEnd + align
              || exists i :: 0 <= i < |scns| && Occupies(scns[i]) && sh < scns[i].sOffset + scns[i].sSize + align)
          && rc == sh + ShdrSize(conf.class32) * |scns|)
    && (|scns| == 0 ==> rc == phEnd)
  }

  lemma ShowFileLayout(conf: Conf, phnum: nat, before: seq<Section>, after: seq<Section>)
    requires Fits(conf, before, PhEnd(conf, phnum)) && Chained(conf, before, after, PhEnd(conf, phnum), |before|)
    ensures FileLayout(conf, phnum, after, PhOff(conf, phnum), ShOff(conf, phnum, before), FileEnd(conf, phnum, before))
  {
    hide Extents, EndOf, Acceptable, SectionsEnd, WellPlaced, Occupies, Packed, AlignmentStored;
    var start := PhEnd(conf, phnum);
    ChainStart(conf, before, start);
    EndMonotone(conf, before, start, 0, |before|);
    forall i | 0 <= i < |after| && Occupies(after[i])
      ensures start <= after[i].sOffset && WellPlaced(after[i])
      ensures after[i].sOffset + after[i].sSize <= BodyEnd(conf, phnum, before)
    {
      ChainWalk(conf, before, after, start, i);
      EndMonotone(conf, before, start, 0, i);
      EndMonotone(conf, before, start, i + 1, |before|);
      assert LaidAt(conf, before[i], after[i], SectionsEnd(conf, before, start, i));
      SectionEndStep(conf, before, start, i);
      LibraryLayout(conf, before[i], SectionsEnd(conf, before, start, i));
    }
    forall i, j | 0 <= i < j < |after| && Occupies(after[i]) && Occupies(after[j])
      ensures after[i].sOffset + after[i].sSize <= after[j].sOffset
    {
      ChainWalk(conf, before, after, start, i);
      ChainWalk(conf, before, after, start, j);
      EndMonotone(conf, before, start, i + 1, j);
    }
    BodyEndIs(conf, before, after, start, |before|);
  }

  /** The sections end with the last one that occupies space, or where they began. */
  lemma {:induction false} BodyEndIs(conf: Conf, before: seq<Section>, after: seq<Section>, rc: nat, k: nat)
    requires Fits(conf, before, rc) && Chained(conf, before, after, rc, |before|) && k <= |before|
    ensures SectionsEnd(conf, before, rc, k) == rc
         || exists i :: 0 <= i < k && Occupies(after[i])
              && SectionsEnd(conf, before, rc, k) == after[i].sOffset + after[i].sSize
  {
    hide Extents, EndOf, Acceptable, WellPlaced, Occupies, SectionsEnd, Packed, AlignmentStored;
    if k == 0 {
      ChainStart(conf, before, rc);
    } else {
      BodyEndIs(conf, before, after, rc, k - 1);
      ChainWalk(conf, before, after, rc, k - 1);
    }
  }

  lemma SectionEndStep(conf: Conf, scns: seq<Section>, rc: nat, i: nat)
    requires AllAcceptable(conf, scns) && i < |scns| && Occupies(scns[i])
    ensures SectionsEnd(conf, scns, rc, i + 1) == EndOf(conf, scns[i], SectionsEnd(conf, scns, rc, i))
  {
  }

  /** The fields the file stores, cut to 32 bits in a 32-bit object, hold the layout itself. */
  ghost predicate Stored(scns: seq<Section>, ph: nat, sh: nat, phoff: u64, shoff: u64) {
    && phoff == ph && shoff == sh
    && forall i :: 0 <= i < |scns| && Occupies(scns[i]) ==>
         && scns[i].shOffset == scns[i].sOffset && scns[i].shSize == scns[i].sSize
         && AlignmentStored(scns[i])
  }

  /** They do if and only if the class is 64-bit or the section header table starts below 2^32. */
  lemma StoredIff(conf: Conf, phnum: nat, before: seq<Section>, after: seq<Section>, phoff: u64, shoff: u64)
    requires Fits(conf, before, PhEnd(conf, phnum)) && Chained(conf, before, after, PhEnd(conf, phnum), |before|)
    requires PhOff(conf, phnum) < HALF && ShOff(conf, phnum, before) < HALF
    requires phoff == Field(conf, PhOff(conf, phnum)) && shoff == Field(conf, ShOff(conf, phnum, before))
    ensures Stored(after, PhOff(conf, phnum), ShOff(conf, phnum, before), phoff, shoff) <==>
              !conf.class32 || ShOff(conf, phnum, before) < T32
  {
    hide Extents, EndOf, Acceptable, SectionsEnd, WellPlaced, Occupies, Packed, AlignmentStored;
    FirstTable(conf, phnum);
    FieldKept(conf, PhOff(conf, phnum));
    FieldKept(conf, ShOff(conf, phnum, before));
    if !conf.class32 || ShOff(conf, phnum, before) < T32 {
      forall i | 0 <= i < |after| && Occupies(after[i])
        ensures after[i].shOffset == after[i].sOffset && after[i].shSize == after[i].sSize
        ensures AlignmentStored(after[i])
      {
        SectionStored(conf, phnum, before, after, i);
      }
    }
  }

  lemma FirstTable(conf: Conf, phnum: nat)
    ensures PhOff(conf, phnum) < T32
  {
    hide RoundUp;
    RoundUpWithin(EhdrSize(conf.class32), TableAlign(conf.class32));
  }

  lemma RoundUpWithin(x: nat, a: nat)
    requires a > 0
    ensures x <= RoundUp(x, a) < x + a
  {
  }

  lemma FieldKept(conf: Conf, x: u64)
    ensures Field(conf, x) == x <==> !conf.class32 || x < T32
  {
  }

  lemma SectionStored(conf: Conf, phnum: nat, before: seq<Section>, after: seq<Section>, i: nat)
    requires Fits(conf, before, PhEnd(conf, phnum)) && Chained(conf, before, after, PhEnd(conf, phnum), |before|)
    requires i < |after| && Occupies(after[i]) && (!conf.class32 || ShOff(conf, phnum, before) < T32)
    ensures after[i].shOffset == after[i].sOffset && after[i].shSize == after[i].sSize
    ensures AlignmentStored(after[i])
  {
    hide Extents, EndOf, Acceptable, SectionsEnd, WellPlaced, Occupies, RoundUp, Field, AlignmentStored, Packed;
    hide ElfLayout.FinalAlign;
    var start, t := PhEnd(conf, phnum), after[i];
    ChainWalk(conf, before, after, start, i);
    EndMonotone(conf, before, start, i, i + 1);
    EndMonotone(conf, before, start, i + 1, |before|);
    assert LaidAt(conf, before[i], t, SectionsEnd(conf, before, start, i));
    SectionEndStep(conf, before, start, i);
    LibraryLayout(conf, before[i], SectionsEnd(conf, before, start, i));
    RoundUpWithin(BodyEnd(conf, phnum, before), TableAlign(conf.class32));
    FieldKept(conf, t.sOffset);
    FieldKept(conf, t.sSize);
    EndMonotone(conf, before, start, 0, i);
    ChainStart(conf, before, start);
    HeadersNotEmpty(conf, phnum);
    AlignBelow(t.sOffset, FinalAlign(conf, before[i]));
  }

  lemma HeadersNotEmpty(conf: Conf, phnum: nat)
    ensures PhEnd(conf, phnum) > 0
  {
  }

  /** A multiple that is not zero is at least as large as the alignment. */
  lemma AlignBelow(x: nat, a: nat)
    requires a > 0 && x > 0 && x % a == 0
    ensures a <= x
  {
  }

  /** A file that ends at 2^32 or before stores its layout. */
  lemma SmallFileStored(conf: Conf, phnum: nat, scns: seq<Section>)
    requires AllAcceptable(conf, scns) && FileEnd(conf, phnum, scns) <= T32
    ensures ShOff(conf, phnum, scns) < T32
  {
    hide SectionsEnd, RoundUp;
  }

  /** Every part of the file ends before the file does. */
  lemma PartsFit(conf: Conf, phnum: nat, scns: seq<Section>)
    requires AllAcceptable(conf, scns)
    ensures PhOff(conf, phnum) <= PhEnd(conf, phnum) <= BodyEnd(conf, phnum, scns) <= FileEnd(conf, phnum, scns)
    ensures ShOff(conf, phnum, scns) <= FileEnd(conf, phnum, scns)
  {
    hide SectionsEnd, EndOf;
    ChainStart(conf, scns, PhEnd(conf, phnum));
    EndMonotone(conf, scns, PhEnd(conf, phnum), 0, |scns|);
  }

  /** The checks on the executable header before any layout. */
  predicate HeaderOk(conf: Conf, writing: bool, ehVersion: int, ehClass32: bool, ehByteorder: int, byteorder: int):
    (ok: bool)
    ensures ok <==> && ehClass32 == conf.class32 && (!writing ==> ehByteorder == byteorder)
                    && (ehVersion != 0 ==> ehVersion == conf.version) && (ehVersion == 0 ==> conf.version == 1)
  {
    && (if ehVersion == 0 then 1 else ehVersion) == conf.version
    && ehClass32 == conf.class32
    && (writing || ehByteorder == byteorder)
  }

  /** The machine's arithmetic on the program header table, when nothing wraps. */
  lemma HeaderExact(conf: Conf, phnum: u64)
    requires PhEnd(conf, phnum) < HALF && phnum > 0
    ensures RoundUpW(EhdrSize(conf.class32), TableAlign(conf.class32)) == PhOff(conf, phnum)
    ensures PhdrSize(conf.class32) * phnum % W == PhdrSize(conf.class32) * phnum
    ensures (PhOff(conf, phnum) + PhdrSize(conf.class32) * phnum) % W == PhEnd(conf, phnum)
  {
    RoundUpExact(EhdrSize(conf.class32), TableAlign(conf.class32));
    SmallMod(PhdrSize(conf.class32) * phnum);
    SmallMod(PhEnd(conf, phnum));
  }

  lemma TableExact(conf: Conf, phnum: nat, scns: seq<Section>)
    requires AllAcceptable(conf, scns) && FileEnd(conf, phnum, scns) < HALF && |scns| > 0
    ensures BodyEnd(conf, phnum, scns) < W
    ensures RoundUpW(BodyEnd(conf, phnum, scns), TableAlign(conf.class32)) == ShOff(conf, phnum, scns)
    ensures (ShOff(conf, phnum, scns) + ShdrSize(conf.class32) * |scns|) % W == FileEnd(conf, phnum, scns)
  {
    hide SectionsEnd;
    PartsFit(conf, phnum, scns);
    RoundUpExact(BodyEnd(conf, phnum, scns), TableAlign(conf.class32));
    SmallMod(FileEnd(conf, phnum, scns));
  }

  class Elf {
    const conf: Conf
    /** e_cmd == ELF_C_WRITE */
    const writing: bool
    const phnum: u64

    /** The section list e_scn, in list order. */
    var scns: seq<Section>

    // Fields of the executable header.
    var ehVersion: int
    var ehClass32: bool
    var ehByteorder: int
    var byteorder: int
    var phoff: u64
    var shoff: u64

    constructor (conf: Conf, writing: bool, phnum: u64, scns: seq<Section>, ehVersion: int, ehClass32: bool,
                 ehByteorder: int, byteorder: int, phoff: u64, shoff: u64)
      ensures this.conf == conf && this.writing == writing && this.phnum == phnum && this.scns == scns
      ensures this.ehVersion == ehVersion && this.ehClass32 == ehClass32 && this.ehByteorder == ehByteorder
      ensures this.byteorder == byteorder
      ensures this.phoff == phoff && this.shoff == shoff
    {
      this.conf, this.writing, this.phnum, this.scns := conf, writing, phnum, scns;
      this.ehVersion, this.ehClass32, this.ehByteorder, this.byteorder := ehVersion, ehClass32, ehByteorder, byteorder;
      this.phoff, this.shoff := phoff, shoff;
    }

    /** The first loop of _libelf_resync_sections: the extents of every section, in list order. */
    method ComputeAll(rc: u64) returns (ok: bool, nrc: u64)
      modifies this`scns
      ensures |scns| == |old(scns)|
      ensures ok && AllDirty(conf, old(scns)) ==> AllAcceptable(conf, old(scns))
      ensures Fits(conf, old(scns), rc) ==>
                && ok && nrc == SectionsEnd(conf, old(scns), rc, |old(scns)|)
                && Chained(conf, old(scns), scns, rc, |old(scns)|)
    {
      hide Extents, Chained, SectionsEnd, Occupies, Acceptable, Fits, AllAcceptable;
      ghost var before := scns;
      nrc := rc;
      if Fits(conf, before, rc) { FitsFacts(conf, before, rc); ChainStart(conf, before, rc); }
      for k := 0 to |scns|
        invariant |scns| == |before| && scns[k..] == before[k..]
        invariant AllDirty(conf, before) ==> forall i :: 0 <= i < k && Occupies(before[i]) ==>
            Acceptable(conf, before[i])
        invariant Fits(conf, before, rc) ==>
            && AllAcceptable(conf, before) && nrc == SectionsEnd(conf, before, rc, k)
            && Chained(conf, before, scns, rc, k)
      {
        assert scns[k] == scns[k..][0] == before[k..][0] == before[k];
        if Fits(conf, before, rc) { ChainStep(conf, before, scns, rc, k, nrc); }
        if AllDirty(conf, before) { DoneMeansAcceptable(conf, before[k], nrc); }
        var r := ComputeSectionExtents(conf, scns[k], nrc);
        if r.Failed? {
          return false, nrc;
        }
        ghost var s0 := scns;
        scns := scns[k := r.s];
        assert scns[k + 1..] == s0[k..][1..];
        nrc := r.rc;
      }
      ok := true;
      if AllDirty(conf, before) { AcceptableAll(conf, before); }
    }

    /**
     _libelf_resync_sections.  `agrees` is the condition of the assert at its
     end, nrc == rc.
     */
    method ResyncSections(rcIn: u64) returns (ok: bool, rc: u64, agrees: bool)
      modifies this`scns
      ensures ok && AllDirty(conf, old(scns)) ==> AllAcceptable(conf, old(scns))
      ensures Fits(conf, old(scns), rcIn) ==>
                && ok && agrees
                && AllAcceptable(conf, old(scns)) && rc == SectionsEnd(conf, old(scns), rcIn, |old(scns)|)
                && Chained(conf, old(scns), scns, rcIn, |old(scns)|)
    {
      hide Extents, Chained, SectionsEnd, Occupies, Acceptable, Fits, AllAcceptable, Reinsert;
      ghost var before := scns;
      rc := rcIn;
      var nrc;
      ok, nrc := ComputeAll(rc);
      if !ok {
        return false, rc, false;
      }
      var laid := scns;
      if Fits(conf, before, rcIn) { FitsFacts(conf, before, rcIn); ChainStart(conf, before, rcIn); }
      for k := 0 to |laid|
        invariant Fits(conf, before, rcIn) ==>
            scns == laid && AllAcceptable(conf, before) && rc == SectionsEnd(conf, before, rcIn, k)
      {
        if Fits(conf, before, rcIn) { ChainWalk(conf, before, laid, rcIn, k); }
        if Occupies(laid[k]) {
          if laid[k].sOffset < rc {
            if (laid[k].sOffset + laid[k].sSize) % W < rc {
              var r := Reinsert(scns, laid[k]);
              if r.Overlap? {
                return false, rc, false;
              }
              scns := r.list;
            } else {
              return false, rc, false;
            }
          } else {
            rc := (laid[k].sOffset + laid[k].sSize) % W;
          }
        }
      }
      agrees := nrc == rc;
    }

    /** The program header table: its offset and the end of it. */
    method PlacePhdr() returns (ok: bool, rc: u64, ph: u64)
      ensures !conf.layout && PhEnd(conf, phnum) < HALF ==> ok && rc == PhEnd(conf, phnum) && ph == PhOff(conf, phnum)
      ensures !conf.layout ==> ok
      ensures conf.layout ==>
                (ok <==>
                   phnum == 0 || (EhdrSize(conf.class32) <= phoff < HALF && phoff % TableAlign(conf.class32) == 0))
      ensures ok && conf.layout && phnum > 0 ==> ph == phoff && rc == (phoff + PhdrSize(conf.class32) * phnum % W) % W
      ensures ok && phnum == 0 ==> ph == 0 && rc == EhdrSize(conf.class32)
    {
      hide RoundUpW, RoundUp;
      rc, ph, ok := EhdrSize(conf.class32), phoff, true;
      if phnum > 0 {
        if !conf.layout && PhEnd(conf, phnum) < HALF { HeaderExact(conf, phnum); }
        var fsz := PhdrSize(conf.class32) * phnum % W;
        var align := TableAlign(conf.class32);
        if conf.layout {
          if rc > Signed(ph) || ph % align != 0 {
            return false, rc, ph;
          }
        } else {
          ph := RoundUpW(rc, align);
        }
        rc := (ph + fsz) % W;
      } else {
        ph := 0;
      }
    }

    /** The section header table, behind everything else. */
    method PlaceShdr(rcIn: u64, shnum: nat, ghost before: seq<Section>) returns (ok: bool, rc: u64, sh: u64)
      requires shnum == |before|
      ensures !conf.layout ==> ok
      ensures && !conf.layout && AllAcceptable(conf, before) && FileEnd(conf, phnum, before) < HALF
              && rcIn == BodyEnd(conf, phnum, before)
              ==>
              rc == FileEnd(conf, phnum, before) && sh == ShOff(conf, phnum, before)
      ensures conf.layout ==>
                (ok <==> shnum == 0 || (Signed(rcIn) <= Signed(shoff) && shoff % TableAlign(conf.class32) == 0))
      ensures ok && conf.layout && shnum > 0 ==> sh == shoff && rc == (shoff + ShdrSize(conf.class32) * shnum) % W
      ensures ok && shnum == 0 ==> sh == 0 && rc == rcIn
    {
      hide RoundUpW, RoundUp, BodyEnd, AllAcceptable;
      rc, sh, ok := rcIn, shoff, true;
      if shnum > 0 {
        if AllAcceptable(conf, before) && FileEnd(conf, phnum, before) < HALF { TableExact(conf, phnum, before); }
        var fsz := ShdrSize(conf.class32);
        var align := TableAlign(conf.class32);
        if conf.layout {
          if Signed(rc) > Signed(sh) || sh % align != 0 {
            return false, rc, sh;
          }
        } else {
          sh := RoundUpW(rc, align);
        }
        rc := (sh + fsz * shnum) % W;
      } else {
        sh := 0;
      }
    }

    /**
     _libelf_resync_elf.  In library layout with every file-occupying section
     dirty, success means every section passed its checks; and if the file ends
     below 2^63 the regions are laid out in order, disjoint and aligned.
     */
    method ResyncElf() returns (ok: bool, rc: u64, agrees: bool)
      modifies this
      ensures !HeaderOk(conf, writing, old(ehVersion), old(ehClass32), old(ehByteorder), old(byteorder)) ==> !ok
      ensures ok && AllDirty(conf, old(scns)) ==> AllAcceptable(conf, old(scns))
      ensures && HeaderOk(conf, writing, old(ehVersion), old(ehClass32), old(ehByteorder), old(byteorder))
              && AllDirty(conf, old(scns)) && AllAcceptable(conf, old(scns)) && FileEnd(conf, phnum, old(scns)) < HALF
              ==>
              && ok && agrees
              && rc == FileEnd(conf, phnum, old(scns))
              && FileLayout(conf, phnum, scns, PhOff(conf, phnum), ShOff(conf, phnum, old(scns)), rc)
              && phoff == Field(conf, PhOff(conf, phnum)) && shoff == Field(conf, ShOff(conf, phnum, old(scns)))
              && |scns| == |old(scns)|
              && (Stored(scns, PhOff(conf, phnum), ShOff(conf, phnum, old(scns)), phoff, shoff) <==>
                    !conf.class32 || ShOff(conf, phnum, old(scns)) < T32)
    {
      hide SectionsEnd, Chained, FileLayout, PhOff, PhEnd, BodyEnd, ShOff, FileEnd, AllAcceptable, Fits;
      hide AllDirty, RoundUpW, Field, Stored;
      ghost var before := scns;
      ghost var library := AllDirty(conf, before) && AllAcceptable(conf, before) && FileEnd(conf, phnum, before) < HALF;
      if library { LibraryFits(conf, phnum, before); }
      ok, rc, agrees := false, 0, false;
      var v := if ehVersion == 0 then 1 else ehVersion;
      if v != conf.version || ehClass32 != conf.class32 || (!writing && ehByteorder != byteorder) {
        return;
      }
      var shnum := |scns|;
      byteorder := ehByteorder;
      var okH, start, ph := PlacePhdr();
      if !okH {
        return;
      }
      var okS;
      okS, rc, agrees := ResyncSections(start);
      if !okS || rc >= HALF {
        return;
      }
      var okT, sh;
      okT, rc, sh := PlaceShdr(rc, shnum, before);
      if !okT {
        return;
      }
      if library { ShowFileLayout(conf, phnum, before, scns); ChainedShape(conf, before, scns, PhEnd(conf, phnum)); }
      if !conf.layout {
        phoff := Field(conf, ph);
        shoff := Field(conf, sh);
      }
      if library { StoredIff(conf, phnum, before, scns, phoff, shoff); }
      ok := true;
    }
  }

  lemma ChainedShape(conf: Conf, before: seq<Section>, after: seq<Section>, rc: nat)
    requires AllAcceptable(conf, before) && Chained(conf, before, after, rc, |before|)
    ensures |after| == |before|
  {
  }

  lemma LibraryFits(conf: Conf, phnum: nat, scns: seq<Section>)
    requires AllDirty(conf, scns) && AllAcceptable(conf, scns) && FileEnd(conf, phnum, scns) < HALF
    ensures Fits(conf, scns, PhEnd(conf, phnum)) && !conf.layout
    ensures PhOff(conf, phnum) < HALF && PhEnd(conf, phnum) < HALF && BodyEnd(conf, phnum, scns) < HALF
    ensures ShOff(conf, phnum, scns) < HALF
    ensures BodyEnd(conf, phnum, scns) == SectionsEnd(conf, scns, PhEnd(conf, phnum), |scns|)
  {
    hide SectionsEnd, PhOff, PhEnd, ShOff, FileEnd;
    PartsFit(conf, phnum, scns);
  }

  lemma FitsFacts(conf: Conf, scns: seq<Section>, rc: nat)
    requires Fits(conf, scns, rc)
    ensures AllDirty(conf, scns) && AllAcceptable(conf, scns) && rc < HALF
  {
    hide SectionsEnd;
    ChainStart(conf, scns, rc);
    EndMonotone(conf, scns, rc, 0, |scns|);
  }

  lemma DoneMeansAcceptable(conf: Conf, s: Section, rc: u64)
    requires !conf.layout && (Occupies(s) ==> s.dirty)
    ensures Extents(conf, s, rc).Done? && Occupies(s) ==> Acceptable(conf, s)
  {
  }

  lemma AcceptableAll(conf: Conf, scns: seq<Section>)
    requires forall i :: 0 <= i < |scns| && Occupies(scns[i]) ==> Acceptable(conf, scns[i])
    ensures AllAcceptable(conf, scns)
  {
  }
}
