/**
 Section layout of libelf (elf_update.c): where each data descriptor goes inside
 its section and where each section goes in the file.  `Extents` is
 _libelf_compute_section_extents with 64-bit wrap-around; `Placed` and `Laid`
 are the same layout in unbounded arithmetic.
 */
module ElfLayout {
  import opened ElfRound

  // ------------------------------------------------------------- data model

  datatype Data = Data(ty: int, version: int, align: u64, size: u64, off: u64, buf: int)

  datatype Section = Section(ndx: int, shType: int, shAlign: u64, shOffset: u64, shSize: u64,
                             dirty: bool, data: seq<Data>, sOffset: u64, sSize: u64)

  /** e_class, e_version and the ELF_F_LAYOUT flag. */
  datatype Conf = Conf(class32: bool, version: int, layout: bool)

  datatype Error = BadSection | BadData | BadVersion | BadLayout

  const SHT_NULL := 0
  const SHT_NOBITS := 8
  const ELF_T_LAST := 22

  /** The types _libelf_xlate_shtype knows; -1 for the rest. */
  function XlateShtype(t: int): int {
    if t == 6 then 3                                        // DYNAMIC: DYN
    else if t == 11 || t == 2 then 18                       // DYNSYM, SYMTAB: SYM
    else if t == 14 || t == 15 || t == 16 then 0            // *_ARRAY: ADDR
    else if t == 17 || t == 5 || t == 18 then 21            // GROUP, HASH, SYMTAB_SHNDX: WORD
    else if t == 8 || t == 1 || t == 3 then 1               // NOBITS, PROGBITS, STRTAB: BYTE
    else if t == 7 then 9                                   // NOTE
    else if t == 9 then 12                                  // REL
    else if t == 4 then 13                                  // RELA
    else if t == 0x6ffffffd then 19                         // verdef
    else if t == 0x6ffffffe then 20                         // verneed
    else if t == 0x6ffffffa then 7                          // move
    else if t == 0x6ffffffc then 17                         // syminfo
    else -1
  }

  /** _libelf_falign for the types XlateShtype returns. */
  function Falign(ty: int, class32: bool): (a: u64)
    ensures a > 0
  {
    if ty == 1 then 1
    else if ty == 17 then 2
    else if ty == 9 || ty == 19 || ty == 20 || ty == 21 then 4
    else if ty == 7 then 8
    else if class32 then 4 else 8
  }

  predicate Occupies(s: Section) {
    s.shType != SHT_NULL && s.shType != SHT_NOBITS
  }

  // --------------------------------------------- descriptors inside a section

  /** The checks made on one descriptor, in order. */
  function CheckData(conf: Conf, ty: int, shAlign: u64, d: Data): (ok: bool)
    requires shAlign > 0
  {
    d.ty == ty && d.version == conf.version && d.align % shAlign == 0 && d.align != 0 && IsPow2(d.align)
  }

  function DataError(conf: Conf, ty: int, shAlign: u64, d: Data): Error
    requires shAlign > 0
  {
    if d.ty != ty then BadData
    else if d.version != conf.version then BadVersion
    else if d.align % shAlign != 0 then BadLayout
    else BadData
  }

  ghost predicate AllChecked(conf: Conf, ty: int, shAlign: u64, ds: seq<Data>)
    requires shAlign > 0
  {
    forall k :: 0 <= k < |ds| ==> CheckData(conf, ty, shAlign, ds[k])
  }

  /** The largest alignment among the first k descriptors. */
  ghost function MaxAlign(ds: seq<Data>, k: nat): (a: u64)
    requires k <= |ds|
    ensures forall i :: 0 <= i < k ==> ds[i].align <= a
    ensures a == 0 || exists i :: 0 <= i < k && ds[i].align == a
  {
    if k == 0 then 0
    else if ds[k - 1].align > MaxAlign(ds, k - 1) then ds[k - 1].align
    else MaxAlign(ds, k - 1)
  }

  /** The placing loop with wrap-around: the first k descriptors with their offsets, and the size so far. */
  function PlacedW(ds: seq<Data>, align: u64, k: nat): (r: (seq<Data>, u64))
    requires k <= |ds| && (k > 0 ==> align > 0)
    ensures |r.0| == k
  {
    if k == 0 then ([], 0) else
      var p := PlacedW(ds, align, k - 1);
      var o := RoundUpW(p.1, align);
      (p.0 + [ds[k - 1].(off := o)], (o + ds[k - 1].size) % W)
  }

  /** The size of the section after k descriptors, in unbounded arithmetic. */
  ghost function SizeTo(ds: seq<Data>, align: nat, k: nat): nat
    requires k <= |ds| && (k > 0 ==> align > 0)
  {
    if k == 0 then 0 else RoundUp(SizeTo(ds, align, k - 1), align) + ds[k - 1].size
  }

  ghost function OffsetOf(ds: seq<Data>, align: nat, k: nat): nat
    requires k < |ds| && align > 0
  {
    RoundUp(SizeTo(ds, align, k), align)
  }

  lemma {:induction false} SizeMonotone(ds: seq<Data>, align: nat, j: nat, k: nat)
    requires j <= k <= |ds| && align > 0
    ensures SizeTo(ds, align, j) <= SizeTo(ds, align, k)
  {
    if j < k { SizeMonotone(ds, align, j, k - 1); }
  }

  /** Below 2^63 the machine places every descriptor where unbounded arithmetic does. */
  lemma {:induction false} PlacedExact(ds: seq<Data>, align: u64, k: nat)
    requires k <= |ds| && (k > 0 ==> align > 0) && SizeTo(ds, align, k) < HALF
    ensures PlacedW(ds, align, k).1 == SizeTo(ds, align, k)
    ensures forall i :: 0 <= i < k ==>
        && PlacedW(ds, align, k).0[i] == ds[i].(off := PlacedW(ds, align, k).0[i].off)
        && PlacedW(ds, align, k).0[i].off == OffsetOf(ds, align, i)
  {
    hide ElfRound.RoundUp, ElfRound.RoundUpW;
    if k > 0 {
      SizeMonotone(ds, align, k - 1, k);
      PlacedExact(ds, align, k - 1);
      PlacedStep(ds, align, k - 1);
      var p, q := PlacedW(ds, align, k - 1), PlacedW(ds, align, k);
      forall i | 0 <= i < k
        ensures q.0[i] == ds[i].(off := q.0[i].off) && q.0[i].off == OffsetOf(ds, align, i)
      {
        if i < k - 1 { assert q.0[i] == p.0[i]; }
      }
    }
  }

  lemma PlacedStep(ds: seq<Data>, align: u64, k: nat)
    requires k < |ds| && align > 0 && SizeTo(ds, align, k + 1) < HALF && PlacedW(ds, align, k).1 == SizeTo(ds, align, k)
    ensures PlacedW(ds, align, k + 1).1 == SizeTo(ds, align, k + 1)
    ensures OffsetOf(ds, align, k) < W
    ensures PlacedW(ds, align, k + 1).0 == PlacedW(ds, align, k).0 + [ds[k].(off := OffsetOf(ds, align, k))]
  {
    hide ElfRound.RoundUp, ElfRound.RoundUpW;
    RoundUpExact(PlacedW(ds, align, k).1, align);
    SmallMod(SizeTo(ds, align, k + 1));
  }

  /** The end of the furthest descriptor, for application-controlled layout. */
  function FurthestW(ds: seq<Data>, k: nat): (r: u64)
    requires k <= |ds|
    ensures forall i :: 0 <= i < k ==> (ds[i].off + ds[i].size) % W <= r
    ensures r == 0 || exists i :: 0 <= i < k && (ds[i].off + ds[i].size) % W == r
  {
    if k == 0 then 0 else
      var m := FurthestW(ds, k - 1);
      var e := (ds[k - 1].off + ds[k - 1].size) % W;
      if e > m then e else m
  }

  // ------------------------------------------------------ one section in the file

  /** Header fields of 32-bit objects are 32 bits wide. */
  function Field(conf: Conf, x: u64): (r: u64)
    ensures !conf.class32 ==> r == x
    ensures conf.class32 ==> r < 0x1_0000_0000 && r <= x && (x - r) % 0x1_0000_0000 == 0
  {
    if conf.class32 then x % 0x1_0000_0000 else x
  }

  datatype Outcome = Failed(e: Error) | Done(s: Section, rc: u64)

  /** The section's own alignment, or the default of its type. */
  function BaseAlign(conf: Conf, s: Section): (a: u64)
    ensures a > 0
    ensures s.shAlign != 0 ==> a == s.shAlign
    ensures s.shAlign == 0 ==> a == Falign(XlateShtype(s.shType), conf.class32)
  {
    if s.shAlign == 0 then Falign(XlateShtype(s.shType), conf.class32) else s.shAlign
  }

  /** The largest of the section's own alignment and those of its descriptors. */
  ghost function FinalAlign(conf: Conf, s: Section): (a: u64)
    ensures a > 0 && a >= BaseAlign(conf, s) && a >= MaxAlign(s.data, |s.data|)
    ensures a == BaseAlign(conf, s) || exists k :: 0 <= k < |s.data| && s.data[k].align == a
  {
    var m := MaxAlign(s.data, |s.data|);
    if m > BaseAlign(conf, s) then m else BaseAlign(conf, s)
  }

  function Grown(rc: u64, end: u64): (r: u64)
    ensures r >= rc && r >= end && (r == rc || r == end)
  {
    if rc < end then end else rc
  }

  /** A section that passes the checks of the dirty branch. */
  ghost predicate Acceptable(conf: Conf, s: Section) {
    && 0 <= XlateShtype(s.shType) <= ELF_T_LAST
    && AllChecked(conf, XlateShtype(s.shType), BaseAlign(conf, s), s.data)
  }

  /** The section as the library-layout branch leaves it, with its size and offset. */
  ghost function LaidW(conf: Conf, s: Section, rc: u64): Section
    requires |s.data| > 0 ==> MaxAlign(s.data, |s.data|) > 0
  {
    var p := PlacedW(s.data, MaxAlign(s.data, |s.data|), |s.data|);
    var a := FinalAlign(conf, s);
    var off := RoundUpW(rc, a);
    s.(data := p.0, shAlign := Field(conf, a), shSize := Field(conf, p.1), shOffset := Field(conf, off), sSize := p.1,
      sOffset := off)
  }

  /** _libelf_compute_section_extents as a function of the section and *rc. */
  ghost function Extents(conf: Conf, s: Section, rc: u64): Outcome {
    if !Occupies(s) then Done(s, rc)
    else if !s.dirty then Done(s, Grown(rc, (s.shOffset + s.shSize) % W))
    else if !(0 <= XlateShtype(s.shType) <= ELF_T_LAST) then Failed(BadSection)
    else if !AllChecked(conf, XlateShtype(s.shType), BaseAlign(conf, s), s.data) then
      Failed(FirstError(conf, XlateShtype(s.shType), BaseAlign(conf, s), s.data))
    else if conf.layout then
      if MaxAlign(s.data, |s.data|) > BaseAlign(conf, s) || s.shOffset % BaseAlign(conf, s) != 0
         || s.shSize < FurthestW(s.data, |s.data|) then
        Failed(BadLayout)
      else
        Done(s.(sSize := s.shSize, sOffset := s.shOffset), Grown(rc, (s.shOffset + s.shSize) % W))
    else
      AlignPositive(conf, s);
      var t := LaidW(conf, s, rc);
      Done(t, Grown(rc, (t.sOffset + t.sSize) % W))
  }

  lemma AlignPositive(conf: Conf, s: Section)
    requires Acceptable(conf, s)
    ensures |s.data| > 0 ==> MaxAlign(s.data, |s.data|) > 0
  {
    if |s.data| > 0 { assert CheckData(conf, XlateShtype(s.shType), BaseAlign(conf, s), s.data[0]); }
  }

  ghost function FirstError(conf: Conf, ty: int, shAlign: u64, ds: seq<Data>): Error
    requires shAlign > 0 && !AllChecked(conf, ty, shAlign, ds)
    decreases |ds|
  {
    if |ds| == 0 then BadData
    else if !CheckData(conf, ty, shAlign, ds[0]) then DataError(conf, ty, shAlign, ds[0])
    else
      assert !AllChecked(conf, ty, shAlign, ds[1..]) by {
        var k :| 0 <= k < |ds| && !CheckData(conf, ty, shAlign, ds[k]);
        assert ds[1..][k - 1] == ds[k];
      }
      FirstError(conf, ty, shAlign, ds[1..])
  }

  // ---------------------------------------------------------------- the loops

  lemma FirstErrorAt(conf: Conf, ty: int, shAlign: u64, ds: seq<Data>, k: nat)
    requires shAlign > 0 && k < |ds| && !CheckData(conf, ty, shAlign, ds[k])
    requires forall i :: 0 <= i < k ==> CheckData(conf, ty, shAlign, ds[i])
    ensures !AllChecked(conf, ty, shAlign, ds)
    ensures FirstError(conf, ty, shAlign, ds) == DataError(conf, ty, shAlign, ds[k])
    decreases k
  {
    if k > 0 {
      assert ds[1..][k - 1] == ds[k];
      FirstErrorAt(conf, ty, shAlign, ds[1..], k - 1);
    }
  }

  /** The first loop over the descriptors: checks and the section alignment. */
  method CheckAll(conf: Conf, ty: int, shAlign: u64, ds: seq<Data>) returns (ok: bool, error: Error, align: u64)
    requires shAlign > 0
    ensures ok == AllChecked(conf, ty, shAlign, ds)
    ensures !ok ==> error == FirstError(conf, ty, shAlign, ds)
    ensures ok ==> align == MaxAlign(ds, |ds|)
  {
    align, error := 0, BadData;
    for k := 0 to |ds|
      invariant forall i :: 0 <= i < k ==> CheckData(conf, ty, shAlign, ds[i])
      invariant align == MaxAlign(ds, k)
    {
      if !CheckData(conf, ty, shAlign, ds[k]) {
        FirstErrorAt(conf, ty, shAlign, ds, k);
        return false, DataError(conf, ty, shAlign, ds[k]), align;
      }
      if ds[k].align > align {
        align := ds[k].align;
      }
    }
    ok := true;
  }

  /** The second loop, library layout: rounds up, stores d_off, adds d_size. */
  method PlaceAll(ds: seq<Data>, align: u64) returns (placed: seq<Data>, size: u64)
    requires |ds| > 0 ==> align > 0
    ensures (placed, size) == PlacedW(ds, align, |ds|)
  {
    placed, size := ds, 0;
    for k := 0 to |ds|
      invariant |placed| == |ds| && placed[..k] == PlacedW(ds, align, k).0 && placed[k..] == ds[k..]
      invariant size == PlacedW(ds, align, k).1
    {
      assert placed[k] == placed[k..][0] == ds[k];
      size := RoundUpW(size, align);
      ghost var before := placed;
      placed := placed[k := placed[k].(off := size)];
      size := (size + ds[k].size) % W;
      assert placed[..k + 1] == before[..k] + [placed[k]];
      assert placed[k + 1..] == before[k..][1..];
    }
    assert placed == placed[..|ds|];
  }

  method FindFurthest(ds: seq<Data>) returns (size: u64)
    ensures size == FurthestW(ds, |ds|)
  {
    hide FurthestW;
    size := 0;
    FurthestStart(ds);
    for k := 0 to |ds|
      invariant size == FurthestW(ds, k)
    {
      var end := (ds[k].off + ds[k].size) % W;
      FurthestNext(ds, k, end);
      if end > size {
        size := end;
      }
    }
  }

  lemma FurthestStart(ds: seq<Data>)
    ensures FurthestW(ds, 0) == 0
  {
  }

  lemma FurthestNext(ds: seq<Data>, k: nat, end: u64)
    requires k < |ds| && end == (ds[k].off + ds[k].size) % W
    ensures FurthestW(ds, k + 1) == if end > FurthestW(ds, k) then end else FurthestW(ds, k)
  {
  }

  /** _libelf_compute_section_extents. */
  method ComputeSectionExtents(conf: Conf, s: Section, rc: u64) returns (r: Outcome)
    ensures r == Extents(conf, s, rc)
  {
    hide RoundUpW, PlacedW, FurthestW, MaxAlign, AllChecked, FirstError, XlateShtype, Field, Grown, Occupies;
    if !Occupies(s) {
      return Done(s, rc);
    }
    if !s.dirty {
      return Done(s, Grown(rc, (s.shOffset + s.shSize) % W));
    }
    var ty := XlateShtype(s.shType);
    if !(0 <= ty <= ELF_T_LAST) {
      return Failed(BadSection);
    }
    var shAlign := BaseAlign(conf, s);
    var ok, error, scnAlign := CheckAll(conf, ty, shAlign, s.data);
    if !ok {
      return Failed(error);
    }
    if conf.layout {
      var size := FindFurthest(s.data);
      if scnAlign > shAlign || s.shOffset % shAlign != 0 || s.shSize < size {
        return Failed(BadLayout);
      }
      return Done(s.(sSize := s.shSize, sOffset := s.shOffset), Grown(rc, (s.shOffset + s.shSize) % W));
    }
    AlignPositive(conf, s);
    var placed, size := PlaceAll(s.data, scnAlign);
    if scnAlign > shAlign {
      shAlign := scnAlign;
    }
    var off := RoundUpW(rc, shAlign);
    var t := s.(data := placed, shAlign := Field(conf, shAlign), shSize := Field(conf, size),
        shOffset := Field(conf, off), sSize := size, sOffset := off);
    return Done(t, Grown(rc, (off + size) % W));
  }

  // ------------------------------------------------- the other ways it can end

  /** What every descriptor has to be, and the error of the first test that fails, in the order of the tests. */
  lemma DescriptorTests(conf: Conf, ty: int, shAlign: u64, d: Data)
    requires shAlign > 0
    ensures CheckData(conf, ty, shAlign, d) <==>
            && d.ty == ty && d.version == conf.version
            && d.align % shAlign == 0 && d.align > 0 && IsPow2(d.align)
    ensures d.ty != ty ==> DataError(conf, ty, shAlign, d) == BadData
    ensures d.ty == ty && d.version != conf.version ==> DataError(conf, ty, shAlign, d) == BadVersion
    ensures d.ty == ty && d.version == conf.version && d.align % shAlign != 0 ==>
              DataError(conf, ty, shAlign, d) == BadLayout
    ensures d.ty == ty && d.version == conf.version && d.align % shAlign == 0 ==>
              DataError(conf, ty, shAlign, d) == BadData
  {
    hide IsPow2;
  }

  /** A section of no file size is skipped, a clean one keeps its place and moves rc to its end if that is further. */
  lemma Untouched(conf: Conf, s: Section, rc: u64)
    ensures s.shType == 0 || s.shType == 8 ==> Extents(conf, s, rc) == Done(s, rc)
    ensures s.shType != 0 && s.shType != 8 && !s.dirty ==>
              var r := Extents(conf, s, rc);
              var end := (s.shOffset + s.shSize) % W;
              r.Done? && r.s == s && r.rc >= rc && r.rc >= end && (r.rc == rc || r.rc == end)
  {
  }

  /** A dirty section fails on an unknown type first, then with the error of its first bad descriptor. */
  lemma Refused(conf: Conf, s: Section, rc: u64, k: nat)
    requires s.shType != 0 && s.shType != 8 && s.dirty
    ensures XlateShtype(s.shType) < 0 ==> Extents(conf, s, rc) == Failed(BadSection)
    ensures && 0 <= XlateShtype(s.shType) && k < |s.data|
            && !CheckData(conf, XlateShtype(s.shType), BaseAlign(conf, s), s.data[k])
            && (forall i :: 0 <= i < k ==> CheckData(conf, XlateShtype(s.shType), BaseAlign(conf, s), s.data[i]))
            ==>
            Extents(conf, s, rc) == Failed(DataError(conf, XlateShtype(s.shType), BaseAlign(conf, s), s.data[k]))
  {
    hide IsPow2, CheckData, DataError;
    TypesBelowLast(s.shType);
    var ty, a := XlateShtype(s.shType), BaseAlign(conf, s);
    if 0 <= ty && k < |s.data| && !CheckData(conf, ty, a, s.data[k])
       && forall i :: 0 <= i < k ==> CheckData(conf, ty, a, s.data[i]) {
      FirstErrorAt(conf, ty, a, s.data, k);
    }
  }

  lemma TypesBelowLast(t: int)
    ensures -1 <= XlateShtype(t) <= ELF_T_LAST
  {
  }

  /**
   With ELF_F_LAYOUT an acceptable section is taken as it is exactly when its offset is aligned, no
   descriptor needs a larger alignment and every descriptor ends inside it.
   */
  lemma ApplicationLayout(conf: Conf, s: Section, rc: u64)
    requires conf.layout && Occupies(s) && s.dirty && Acceptable(conf, s)
    ensures var r, a := Extents(conf, s, rc), BaseAlign(conf, s);
            && (r.Done? <==>
                  && s.shOffset % a == 0
                  && forall k :: 0 <= k < |s.data| ==>
                       s.data[k].align <= a && (s.data[k].off + s.data[k].size) % W <= s.shSize)
            && (r.Failed? ==> r.e == BadLayout)
            && (r.Done? ==> r.s == s.(sSize := s.shSize, sOffset := s.shOffset) && r.rc >= rc
                              && r.rc >= (s.shOffset + s.shSize) % W
                              && (r.rc == rc || r.rc == (s.shOffset + s.shSize) % W))
  {
    hide IsPow2, CheckData, XlateShtype, BaseAlign, FurthestW, MaxAlign, Grown, AllChecked, LaidW, FirstError;
  }

  // ----------------------------------------- what the library layout guarantees

  /** Where section s ends when the file is filled up to rc, in unbounded arithmetic. */
  ghost function EndOf(conf: Conf, s: Section, rc: nat): nat
    requires Acceptable(conf, s)
  {
    AlignPositive(conf, s);
    RoundUp(rc, FinalAlign(conf, s)) + SizeTo(s.data, MaxAlign(s.data, |s.data|), |s.data|)
  }

  /** The descriptors of a laid-out section: in order, inside the section, not overlapping, each aligned in the file. */
  ghost predicate WellPlaced(s: Section) {
    && (forall k :: 0 <= k < |s.data| ==> s.data[k].off + s.data[k].size <= s.sSize)
    && (forall j, k :: 0 <= j < k < |s.data| ==> s.data[j].off + s.data[j].size <= s.data[k].off)
    && (forall k :: 0 <= k < |s.data| ==> s.data[k].align > 0 && (s.sOffset + s.data[k].off) % s.data[k].align == 0)
  }

  /**
   With no room wasted: the first descriptor starts at zero, each other at the first
   multiple of m after the one before, and the section ends with the last.
   */
  ghost predicate Packed(s: Section, m: nat) {
    && (|s.data| == 0 ==> s.sSize == 0)
    && (|s.data| > 0 ==>
          var last := s.data[|s.data| - 1];
          m > 0 && s.data[0].off == 0 && s.sSize == last.off + last.size)
    && (forall k :: 0 < k < |s.data| ==> PackedAt(s, m, k))
  }

  ghost predicate PackedAt(s: Section, m: nat, k: nat)
    requires 0 < k < |s.data|
  {
    m > 0 && s.data[k].off % m == 0 && s.data[k].off < s.data[k - 1].off + s.data[k - 1].size + m
  }

  /** The stored alignment divides the section's offset, and every descriptor's alignment divides it. */
  ghost predicate AlignmentStored(t: Section) {
    && t.shAlign > 0 && t.sOffset % t.shAlign == 0
    && forall k :: 0 <= k < |t.data| ==> t.data[k].align > 0 && t.shAlign % t.data[k].align == 0
  }

  /**
   What the library-layout branch does to an acceptable dirty section: t starts at the first
   multiple of its alignment at or after rc, is well placed and packed, and its header says so.
   */
  lemma LibraryLayout(conf: Conf, s: Section, rc: u64)
    requires !conf.layout && Occupies(s) && s.dirty && Acceptable(conf, s) && EndOf(conf, s, rc) < HALF
    ensures Extents(conf, s, rc).Done?
    ensures var t := Extents(conf, s, rc).s;
            && Extents(conf, s, rc).rc == EndOf(conf, s, rc) == t.sOffset + t.sSize
            && rc <= t.sOffset
            && t.shType == s.shType && t.ndx == s.ndx && t.dirty == s.dirty && |t.data| == |s.data|
            && (forall k :: 0 <= k < |s.data| ==> t.data[k] == s.data[k].(off := t.data[k].off))
            && t.sOffset % FinalAlign(conf, s) == 0 && t.sOffset < rc + FinalAlign(conf, s)
            && t.shOffset == Field(conf, t.sOffset) && t.shSize == Field(conf, t.sSize)
            && t.shAlign == Field(conf, FinalAlign(conf, s))
            && WellPlaced(t) && Packed(t, MaxAlign(s.data, |s.data|))
            && (!conf.class32 || FinalAlign(conf, s) < 0x1_0000_0000 ==> AlignmentStored(t))
  {
    hide RoundUpW, PlacedW, SizeTo, MaxAlign, Field, Grown, Extents, WellPlaced, Packed, AlignmentStored;
    AlignPositive(conf, s);
    LaidExtents(conf, s, rc);
    var m, a, n := MaxAlign(s.data, |s.data|), FinalAlign(conf, s), |s.data|;
    PlacedExact(s.data, m, n);
    RoundUpExact(rc, a);
    SmallMod(EndOf(conf, s, rc));
    var t := LaidW(conf, s, rc);
    LaidIsPlaced(conf, s, t);
    LaidIsPacked(conf, s, t);
    if !conf.class32 || a < 0x1_0000_0000 {
      FieldFits(conf, a);
      LaidIsStored(conf, s, t);
    }
  }

  lemma LaidExtents(conf: Conf, s: Section, rc: u64)
    requires !conf.layout && Occupies(s) && s.dirty && Acceptable(conf, s)
    requires |s.data| > 0 ==> MaxAlign(s.data, |s.data|) > 0
    ensures var t := LaidW(conf, s, rc); Extents(conf, s, rc) == Done(t, Grown(rc, (t.sOffset + t.sSize) % W))
  {
    hide RoundUpW, PlacedW, MaxAlign, Field, Grown, CheckData, LaidW, FinalAlign;
  }

  lemma FieldFits(conf: Conf, x: u64)
    requires !conf.class32 || x < 0x1_0000_0000
    ensures Field(conf, x) == x
  {
  }

  lemma LaidIsPacked(conf: Conf, s: Section, t: Section)
    requires Acceptable(conf, s) && |t.data| == |s.data|
    requires |s.data| > 0 ==> MaxAlign(s.data, |s.data|) > 0
    requires t.sSize == SizeTo(s.data, MaxAlign(s.data, |s.data|), |s.data|)
    requires forall k :: 0 <= k < |s.data| ==>
               && t.data[k] == s.data[k].(off := t.data[k].off)
               && t.data[k].off == OffsetOf(s.data, MaxAlign(s.data, |s.data|), k)
    ensures Packed(t, MaxAlign(s.data, |s.data|))
  {
    hide SizeTo, MaxAlign, OffsetOf, Acceptable;
    var m, n := MaxAlign(s.data, |s.data|), |s.data|;
    NothingPlaced(s.data, m);
    if n > 0 { SizeStep(s.data, m, n - 1); }
    forall k | 0 < k < n ensures PackedAt(t, m, k) {
      SizeStep(s.data, m, k - 1);
      OffsetRounds(s.data, m, k);
    }
  }

  lemma NothingPlaced(ds: seq<Data>, align: nat)
    requires |ds| > 0 ==> align > 0
    ensures SizeTo(ds, align, 0) == 0
    ensures |ds| > 0 ==> OffsetOf(ds, align, 0) == 0
  {
    if |ds| > 0 { RoundUpZero(align); }
  }

  lemma RoundUpZero(a: nat)
    requires a > 0
    ensures RoundUp(0, a) == 0
  {
    hide RoundUp;
    MultipleBelow(RoundUp(0, a), a);
  }

  lemma MultipleBelow(r: nat, a: nat)
    requires a > 0 && r < a && r % a == 0
    ensures r == 0
  {
  }

  lemma OffsetRounds(ds: seq<Data>, align: nat, k: nat)
    requires k < |ds| && align > 0
    ensures OffsetOf(ds, align, k) % align == 0 && OffsetOf(ds, align, k) < SizeTo(ds, align, k) + align
  {
    hide SizeTo, RoundUp;
  }

  lemma LaidIsStored(conf: Conf, s: Section, t: Section)
    requires Acceptable(conf, s) && |t.data| == |s.data| && t.sOffset % FinalAlign(conf, s) == 0
    requires t.shAlign == FinalAlign(conf, s)
    requires forall k :: 0 <= k < |s.data| ==> t.data[k].align == s.data[k].align
    ensures AlignmentStored(t)
  {
    hide FinalAlign, MaxAlign, BaseAlign;
    forall k | 0 <= k < |t.data| ensures t.data[k].align > 0 && t.shAlign % t.data[k].align == 0 {
      AlignDivides(conf, s, k);
    }
  }

  /** Alignments are powers of two, so the largest is a multiple of every other. */
  lemma AlignDivides(conf: Conf, s: Section, k: nat)
    requires Acceptable(conf, s) && k < |s.data|
    ensures s.data[k].align > 0 && FinalAlign(conf, s) % s.data[k].align == 0
  {
    var d, m := s.data[k].align, MaxAlign(s.data, |s.data|);
    assert CheckData(conf, XlateShtype(s.shType), BaseAlign(conf, s), s.data[k]);
    var i :| 0 <= i < |s.data| && s.data[i].align == m;
    assert CheckData(conf, XlateShtype(s.shType), BaseAlign(conf, s), s.data[i]);
    BaseBelowMax(conf, s, i);
    Pow2Divides(d, m);
  }

  /** Descriptors at the offsets of the unbounded placement are in bounds, in order and aligned. */
  lemma LaidIsPlaced(conf: Conf, s: Section, t: Section)
    requires Acceptable(conf, s) && |t.data| == |s.data| && t.sOffset % FinalAlign(conf, s) == 0
    requires |s.data| > 0 ==> MaxAlign(s.data, |s.data|) > 0
    requires t.sSize == SizeTo(s.data, MaxAlign(s.data, |s.data|), |s.data|)
    requires forall k :: 0 <= k < |s.data| ==>
               && t.data[k] == s.data[k].(off := t.data[k].off)
               && t.data[k].off == OffsetOf(s.data, MaxAlign(s.data, |s.data|), k)
    ensures WellPlaced(t)
  {
    hide SizeTo, MaxAlign, FinalAlign, OffsetOf, Acceptable;
    var m, n := MaxAlign(s.data, |s.data|), |s.data|;
    forall k | 0 <= k < n
      ensures t.data[k].off + t.data[k].size <= t.sSize
      ensures t.data[k].align > 0 && (t.sOffset + t.data[k].off) % t.data[k].align == 0
    {
      SizeStep(s.data, m, k);
      SizeMonotone(s.data, m, k + 1, n);
      DescriptorAligned(conf, s, t.sOffset, k);
    }
    forall j, k | 0 <= j < k < n ensures t.data[j].off + t.data[j].size <= t.data[k].off {
      SizeStep(s.data, m, j);
      SizeMonotone(s.data, m, j + 1, k);
      OffsetAbove(s.data, m, k);
    }
  }

  lemma OffsetAbove(ds: seq<Data>, align: nat, k: nat)
    requires k < |ds| && align > 0
    ensures OffsetOf(ds, align, k) >= SizeTo(ds, align, k)
  {
    hide SizeTo;
  }

  lemma SizeStep(ds: seq<Data>, align: nat, k: nat)
    requires k < |ds| && align > 0
    ensures SizeTo(ds, align, k + 1) == OffsetOf(ds, align, k) + ds[k].size
  {
  }

  /** Both the section offset and the descriptor offset are multiples of the descriptor's own alignment. */
  lemma DescriptorAligned(conf: Conf, s: Section, off: nat, k: nat)
    requires Acceptable(conf, s) && k < |s.data| && off % FinalAlign(conf, s) == 0
    requires MaxAlign(s.data, |s.data|) > 0
    ensures s.data[k].align > 0 && (off + OffsetOf(s.data, MaxAlign(s.data, |s.data|), k)) % s.data[k].align == 0
  {
    hide SizeTo;
    var d, m, a := s.data[k].align, MaxAlign(s.data, |s.data|), FinalAlign(conf, s);
    assert CheckData(conf, XlateShtype(s.shType), BaseAlign(conf, s), s.data[k]);
    var i :| 0 <= i < |s.data| && s.data[i].align == m;
    assert CheckData(conf, XlateShtype(s.shType), BaseAlign(conf, s), s.data[i]);
    Pow2Divides(d, m);
    BaseBelowMax(conf, s, i);
    assert a == m;
    DividesThrough(off, m, d);
    DividesThrough(OffsetOf(s.data, m, k), m, d);
    SumOfMultiples(off, OffsetOf(s.data, m, k), d);
  }

  /** Descriptor alignments are multiples of the section's, so the largest of them is what the section gets. */
  lemma BaseBelowMax(conf: Conf, s: Section, i: nat)
    requires Acceptable(conf, s) && i < |s.data|
    ensures BaseAlign(conf, s) <= s.data[i].align
  {
    assert CheckData(conf, XlateShtype(s.shType), BaseAlign(conf, s), s.data[i]);
    MultipleNotSmaller(s.data[i].align, BaseAlign(conf, s));
  }

  lemma MultipleNotSmaller(d: nat, b: nat)
    requires 0 < d && 0 < b && d % b == 0
    ensures b <= d
  {
  }
}
