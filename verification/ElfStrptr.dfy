/**
 elf_strptr of libelf (elf_strptr.c): from an offset in a string section to an
 address, without trusting d_off.  It recomputes the descriptor offsets its own
 way; the theorem says exactly when that agrees with the layout pass.
 */
module ElfStrptr {
  import opened ElfRound
  import opened ElfLayout

  const SHT_STRTAB := 3
  const ELF_T_BYTE := 1

  datatype Ptr = Null | At(address: int)

  /** A descriptor elf_strptr looks at; it skips all others without counting them. */
  predicate Live(d: Data) {
    d.buf != 0 && d.size != 0
  }

  /** roundup, only done for alignments above one. */
  function Up(x: nat, a: nat): (r: nat)
    ensures r >= x
  {
    if a > 1 then RoundUp(x, a) else x
  }

  function UpW(x: u64, a: u64): u64 {
    if a > 1 then RoundUpW(x, a) else x
  }

  /** The loop of the library-layout branch, from descriptor k on with `count` bytes seen. */
  function Walk(ds: seq<Data>, k: nat, count: u64, offset: u64): Ptr
    requires k <= |ds|
    decreases |ds| - k
  {
    if k == |ds| || count > offset then Null
    else if !Live(ds[k]) then Walk(ds, k + 1, count, offset)
    else if ds[k].ty != ELF_T_BYTE then Null
    else if ds[k].align > 1 && !IsPow2(ds[k].align) then Null
    else
      var c := UpW(count, ds[k].align);
      if offset < c then Null
      else if offset < (c + ds[k].size) % W then At(ds[k].buf + offset - c)
      else Walk(ds, k + 1, (c + ds[k].size) % W, offset)
  }

  /** With ELF_F_LAYOUT the descriptors' own d_off is used. */
  function Direct(ds: seq<Data>, k: nat, offset: u64): Ptr
    requires k <= |ds|
    decreases |ds| - k
  {
    if k == |ds| then Null
    else if !Live(ds[k]) then Direct(ds, k + 1, offset)
    else if ds[k].ty != ELF_T_BYTE then Null
    else if ds[k].off <= offset < (ds[k].off + ds[k].size) % W then At(ds[k].buf + offset - ds[k].off)
    else Direct(ds, k + 1, offset)
  }

  /** Descriptor k is live and offset lies in its range. */
  ghost predicate Covers(ds: seq<Data>, k: nat, offset: u64)
    requires k < |ds|
  {
    ds[k].buf != 0 && ds[k].size != 0 && ds[k].off <= offset < ds[k].off + ds[k].size
  }

  ghost predicate FirstCover(ds: seq<Data>, k: nat, i: int, offset: u64) {
    k <= i < |ds| && Covers(ds, i, offset) && forall j :: k <= j < i ==> !Covers(ds, j, offset)
  }

  /** With ELF_F_LAYOUT an offset goes to the first live descriptor that covers it, and to none if there is none. */
  lemma {:induction false} DirectIs(ds: seq<Data>, k: nat, offset: u64)
    requires k <= |ds| && forall i :: 0 <= i < |ds| ==> ds[i].ty == ELF_T_BYTE && ds[i].off + ds[i].size < W
    ensures Direct(ds, k, offset) == Null <==> forall i :: k <= i < |ds| ==> !Covers(ds, i, offset)
    ensures forall i :: FirstCover(ds, k, i, offset) ==> Direct(ds, k, offset) == At(ds[i].buf + (offset - ds[i].off))
    decreases |ds| - k
  {
    if k < |ds| {
      DirectIs(ds, k + 1, offset);
      SmallMod(ds[k].off + ds[k].size);
      if Covers(ds, k, offset) {
        assert Direct(ds, k, offset) == At(ds[k].buf + offset - ds[k].off);
      } else {
        assert Direct(ds, k, offset) == Direct(ds, k + 1, offset);
        forall i | FirstCover(ds, k, i, offset) ensures FirstCover(ds, k + 1, i, offset) { }
      }
    }
  }

  /** elf_strptr on a section of the file. */
  /**
   p points into the buffer of a live byte descriptor that can be aligned, and all live
   descriptors before it are such too.
   */
  ghost predicate Inside(ds: seq<Data>, k: nat, p: Ptr, aligned: bool, i: int) {
    && k <= i < |ds| && p.At? && ds[i].buf != 0 && ds[i].buf <= p.address < ds[i].buf + ds[i].size
    && forall j :: k <= j <= i && ds[j].buf != 0 && ds[j].size != 0 ==>
         ds[j].ty == 1 && (aligned && ds[j].align > 1 ==> IsPow2(ds[j].align))
  }

  /** No address outside the buffers is ever returned, whatever the descriptors say. */
  lemma {:induction false} WalkInside(ds: seq<Data>, k: nat, count: u64, offset: u64)
    requires k <= |ds|
    ensures Walk(ds, k, count, offset).At? ==> exists i :: Inside(ds, k, Walk(ds, k, count, offset), true, i)
    decreases |ds| - k
  {
    hide IsPow2, UpW;
    var p := Walk(ds, k, count, offset);
    if p.At? {
      var d := ds[k];
      var c := UpW(count, d.align);
      NoMore(c + d.size);
      if Live(d) && offset < (c + d.size) % W {
        assert Inside(ds, k, p, true, k);
      } else {
        var count' := if Live(d) then (c + d.size) % W else count;
        WalkInside(ds, k + 1, count', offset);
        var i :| Inside(ds, k + 1, p, true, i);
        assert Inside(ds, k, p, true, i);
      }
    }
  }

  lemma {:induction false} DirectInside(ds: seq<Data>, k: nat, offset: u64)
    requires k <= |ds|
    ensures Direct(ds, k, offset).At? ==> exists i :: Inside(ds, k, Direct(ds, k, offset), false, i)
    decreases |ds| - k
  {
    hide IsPow2;
    var p := Direct(ds, k, offset);
    if p.At? {
      var d := ds[k];
      NoMore(d.off + d.size);
      if Live(d) && d.off <= offset < (d.off + d.size) % W {
        assert Inside(ds, k, p, false, k);
      } else {
        DirectInside(ds, k + 1, offset);
        var i :| Inside(ds, k + 1, p, false, i);
        assert Inside(ds, k, p, false, i);
      }
    }
  }

  lemma NoMore(x: nat)
    ensures x % W <= x
  {
  }

  method Strptr(conf: Conf, s: Section, offset: u64) returns (p: Ptr)
    ensures p == if s.shType != SHT_STRTAB || offset >= s.shSize then Null
                 else if conf.layout then Direct(s.data, 0, offset)
                 else Walk(s.data, 0, 0, offset)
  {
    if s.shType != SHT_STRTAB || offset >= s.shSize {
      return Null;
    }
    var k := 0;
    if conf.layout {
      while k < |s.data|
        invariant k <= |s.data| && Direct(s.data, k, offset) == Direct(s.data, 0, offset)
      {
        var d := s.data[k];
        if Live(d) {
          if d.ty != ELF_T_BYTE {
            return Null;
          }
          if d.off <= offset < (d.off + d.size) % W {
            return At(d.buf + offset - d.off);
          }
        }
        k := k + 1;
      }
    } else {
      var count: u64 := 0;
      while k < |s.data| && count <= offset
        invariant k <= |s.data| && Walk(s.data, k, count, offset) == Walk(s.data, 0, 0, offset)
      {
        var d := s.data[k];
        if Live(d) {
          if d.ty != ELF_T_BYTE {
            return Null;
          }
          if d.align > 1 {
            if !IsPow2(d.align) {
              return Null;
            }
            count := RoundUpW(count, d.align);
          }
          if offset < count {
            return Null;
          }
          if offset < (count + d.size) % W {
            return At(d.buf + offset - count);
          }
          count := (count + d.size) % W;
        }
        k := k + 1;
      }
    }
    return Null;
  }

  // --------------------------------------------------- agreement with the layout

  /** Descriptors as the library layout leaves them: strings, ascending, below 2^63. */
  ghost predicate Laid(ds: seq<Data>) {
    && (forall k :: 0 <= k < |ds| ==> ds[k].ty == ELF_T_BYTE && ds[k].align > 0 && IsPow2(ds[k].align))
    && (forall j, k :: 0 <= j < k < |ds| ==> ds[j].off + ds[j].size <= ds[k].off)
    && (forall k :: 0 <= k < |ds| ==> ds[k].off + ds[k].size < HALF)
    && (forall k :: 0 <= k < |ds| ==> ds[k].off % ds[k].align == 0)
  }

  /** The live descriptor, from k on, whose laid-out range contains o. */
  ghost function Resolve(ds: seq<Data>, k: nat, o: nat): Ptr
    requires k <= |ds|
    decreases |ds| - k
  {
    if k == |ds| then Null
    else if Live(ds[k]) && ds[k].off <= o < ds[k].off + ds[k].size then At(ds[k].buf + o - ds[k].off)
    else Resolve(ds, k + 1, o)
  }

  /** The end of the last live descriptor among the first k. */
  ghost function LiveEnd(ds: seq<Data>, k: nat): nat
    requires k <= |ds|
  {
    if k == 0 then 0 else if Live(ds[k - 1]) then ds[k - 1].off + ds[k - 1].size else LiveEnd(ds, k - 1)
  }

  /** Every live descriptor starts at the previous live end, rounded up to its own alignment. */
  ghost predicate Tight(ds: seq<Data>) {
    forall k :: 0 <= k < |ds| && Live(ds[k]) ==> ds[k].off == Up(LiveEnd(ds, k), ds[k].align)
  }

  lemma {:induction false} LiveEndBelow(ds: seq<Data>, j: nat, k: nat)
    requires Laid(ds) && j <= k < |ds|
    ensures LiveEnd(ds, j) <= ds[k].off
  {
    if j > 0 && !Live(ds[j - 1]) { LiveEndBelow(ds, j - 1, k); }
  }

  /**
   No multiple of a lies strictly between x and the rounding of x; so the rounding is at most any
   multiple above x.
   */
  lemma RoundUpLeast(x: nat, a: nat, m: nat)
    requires a > 0 && m % a == 0 && x <= m
    ensures RoundUp(x, a) <= m
  {
    hide ElfRound.RoundUp;
    LeastMultiple(x, a, RoundUp(x, a), m);
  }

  lemma LeastMultiple(x: nat, a: nat, r: nat, m: nat)
    requires a > 0 && r % a == 0 && m % a == 0 && r < x + a && x <= m
    ensures r <= m
  {
    var p, q := r / a, m / a;
    assert r == a * p && m == a * q;
    assert a * (p - q) == a * p - a * q;
    if p - q >= 1 {
      Scaled(a, p - q);
    } else {
      Scaled(a, q - p + 1);
      assert a * (q - p + 1) == a * q - a * p + a;
    }
  }

  lemma StartBelow(ds: seq<Data>, k: nat)
    requires Laid(ds) && k < |ds|
    ensures Up(LiveEnd(ds, k), ds[k].align) <= ds[k].off
  {
    LiveEndBelow(ds, k, k);
    if ds[k].align > 1 { RoundUpLeast(LiveEnd(ds, k), ds[k].align, ds[k].off); }
  }

  lemma UpExact(x: u64, a: u64)
    requires Up(x, a) < HALF
    ensures UpW(x, a) == Up(x, a)
  {
    if a > 1 { RoundUpExact(x, a); }
  }

  /** Past the range of descriptor k, nothing further on contains a smaller offset. */
  lemma {:induction false} NothingFurther(ds: seq<Data>, k: nat, o: nat)
    requires Laid(ds) && k <= |ds|
    requires forall i :: k <= i < |ds| ==> o < ds[i].off
    ensures Resolve(ds, k, o) == Null
    decreases |ds| - k
  {
    if k < |ds| { NothingFurther(ds, k + 1, o); }
  }

  /** A tightly packed section: the walk resolves every offset as the layout does. */
  lemma {:induction false} WalkResolves(ds: seq<Data>, k: nat, o: u64)
    requires Laid(ds) && Tight(ds) && k <= |ds| && LiveEnd(ds, k) <= o
    ensures LiveEnd(ds, k) < W && Walk(ds, k, LiveEnd(ds, k), o) == Resolve(ds, k, o)
    decreases |ds| - k
  {
    hide ElfRound.RoundUp, ElfRound.RoundUpW, ElfRound.IsPow2;
    if k < |ds| {
      var d, e := ds[k], LiveEnd(ds, k);
      LiveEndBelow(ds, k, k);
      if !Live(d) || (d.off <= o && d.off + d.size <= o) {
        WalkStep(ds, k, o);
        WalkResolves(ds, k + 1, o);
      } else {
        UpExact(e, d.align);
        SmallMod(d.off + d.size);
        if o < d.off {
          NothingFrom(ds, k, o);
        }
      }
    }
  }

  lemma NothingFrom(ds: seq<Data>, k: nat, o: u64)
    requires Laid(ds) && k < |ds| && o < ds[k].off
    ensures Resolve(ds, k, o) == Null
  {
    hide ElfRound.IsPow2, Resolve;
    forall i | k <= i < |ds| ensures o < ds[i].off {
      if i > k { assert ds[k].off + ds[k].size <= ds[i].off; }
    }
    NothingFurther(ds, k, o);
  }

  /** Up to the first loose descriptor the walk has counted exactly the live ends. */
  lemma {:induction false} WalkReaches(ds: seq<Data>, j: nat, k: nat, o: u64)
    requires Laid(ds) && j <= k < |ds| && LiveEnd(ds, k) <= o
    requires forall i :: 0 <= i < k && Live(ds[i]) ==> ds[i].off == Up(LiveEnd(ds, i), ds[i].align)
    ensures LiveEnd(ds, j) < W && LiveEnd(ds, k) < W
    ensures Walk(ds, j, LiveEnd(ds, j), o) == Walk(ds, k, LiveEnd(ds, k), o)
    decreases k - j
  {
    hide Laid, Walk, LiveEnd;
    LiveEndBound(ds, j, k);
    LiveEndBound(ds, k, k);
    if j < k {
      LiveEndOrdered(ds, j + 1, k);
      WalkStep(ds, j, o);
      WalkReaches(ds, j + 1, k, o);
    }
  }

  lemma LiveEndBound(ds: seq<Data>, j: nat, k: nat)
    requires Laid(ds) && j <= k < |ds|
    ensures LiveEnd(ds, j) < W
  {
    hide ElfRound.IsPow2, LiveEnd;
    LiveEndBelow(ds, j, k);
  }

  /** The reader steps over a descriptor that ends at or before the offset, if it lies where the reader expects it. */
  lemma WalkStep(ds: seq<Data>, j: nat, o: u64)
    requires Laid(ds) && j < |ds| && LiveEnd(ds, j + 1) <= o
    requires Live(ds[j]) ==> ds[j].off == Up(LiveEnd(ds, j), ds[j].align)
    ensures LiveEnd(ds, j) < W && LiveEnd(ds, j + 1) < W
    ensures Walk(ds, j, LiveEnd(ds, j), o) == Walk(ds, j + 1, LiveEnd(ds, j + 1), o)
  {
    hide ElfRound.RoundUp, ElfRound.RoundUpW, ElfRound.IsPow2;
    var d, e := ds[j], LiveEnd(ds, j);
    LiveEndBelow(ds, j, j);
    if Live(d) {
      UpExact(e, d.align);
      SmallMod(d.off + d.size);
    }
  }

  lemma {:induction false} LiveEndOrdered(ds: seq<Data>, j: nat, k: nat)
    requires Laid(ds) && j <= k <= |ds|
    ensures LiveEnd(ds, j) <= LiveEnd(ds, k)
  {
    if j < k {
      LiveEndOrdered(ds, j, k - 1);
      if Live(ds[k - 1]) { LiveEndBelow(ds, k - 1, k - 1); }
    }
  }

  /** The first live descriptor that does not start where the walk will look for it. */
  lemma FirstLoose(ds: seq<Data>) returns (k: nat)
    requires !Tight(ds)
    ensures k < |ds| && Live(ds[k]) && ds[k].off != Up(LiveEnd(ds, k), ds[k].align)
    ensures forall i :: 0 <= i < k && Live(ds[i]) ==> ds[i].off == Up(LiveEnd(ds, i), ds[i].align)
  {
    k := 0;
    while !(Live(ds[k]) && ds[k].off != Up(LiveEnd(ds, k), ds[k].align))
      invariant k < |ds|
      invariant forall i :: 0 <= i < k && Live(ds[i]) ==> ds[i].off == Up(LiveEnd(ds, i), ds[i].align)
      decreases |ds| - k
    {
      k := k + 1;
      if k == |ds| { assert Tight(ds); }
    }
  }

  /** An offset where a loosely packed section is resolved wrongly: inside padding, yet given an address. */
  lemma LooseDisagrees(ds: seq<Data>) returns (o: u64)
    requires Laid(ds) && !Tight(ds)
    ensures Walk(ds, 0, 0, o) != Resolve(ds, 0, o)
    ensures exists k :: 0 <= k < |ds| && o < ds[k].off
  {
    hide ElfRound.RoundUp, ElfRound.RoundUpW, ElfRound.IsPow2;
    var k := FirstLoose(ds);
    StartBelow(ds, k);
    var d, e := ds[k], LiveEnd(ds, k);
    o := Up(e, d.align);
    UpExact(e, d.align);
    WalkReaches(ds, 0, k, o);
    SmallMod(o + d.size);
    assert Walk(ds, k, e, o) == At(d.buf);
    NotInEarlier(ds, 0, k, o);
    forall i | k <= i < |ds| ensures o < ds[i].off {
      if i > k { assert ds[k].off + ds[k].size <= ds[i].off; }
    }
    NothingFurther(ds, k, o);
  }

  lemma {:induction false} NotInEarlier(ds: seq<Data>, j: nat, k: nat, o: nat)
    requires Laid(ds) && j <= k <= |ds| && LiveEnd(ds, k) <= o
    ensures Resolve(ds, j, o) == Resolve(ds, k, o)
    decreases k - j
  {
    if j < k {
      NotInEarlier(ds, j + 1, k, o);
      LiveEndOrdered(ds, j + 1, k);
    }
  }

  /**
   elf_strptr agrees with the layout pass on every offset if and only if every
   live descriptor starts at the previous live end rounded up to its own
   alignment.
   */
  lemma AgreesIff(ds: seq<Data>)
    requires Laid(ds)
    ensures Tight(ds) <==> forall o: u64 :: Walk(ds, 0, 0, o) == Resolve(ds, 0, o)
  {
    if Tight(ds) {
      forall o: u64 ensures Walk(ds, 0, 0, o) == Resolve(ds, 0, o) {
        WalkResolves(ds, 0, o);
      }
    } else {
      var o := LooseDisagrees(ds);
    }
  }

  // ------------------------------------------------- when a section is tight

  /** The library layout of a string section gives descriptors of this kind. */
  lemma LayoutIsLaid(conf: Conf, s: Section, rc: u64)
    requires !conf.layout && s.shType == SHT_STRTAB && s.dirty && Acceptable(conf, s) && EndOf(conf, s, rc) < HALF
    ensures Extents(conf, s, rc).Done? && Laid(Extents(conf, s, rc).s.data)
  {
    hide *;
    StringsOccupy(s);
    LibraryLayout(conf, s, rc);
    DescriptorsKept(conf, s, rc);
    var t := Extents(conf, s, rc).s;
    forall k | 0 <= k < |t.data|
      ensures t.data[k].ty == ELF_T_BYTE && t.data[k].align > 0 && IsPow2(t.data[k].align)
    {
      StringDescriptor(conf, s, k);
    }
    PlacedIsLaid(t);
  }

  lemma StringsOccupy(s: Section)
    requires s.shType == SHT_STRTAB
    ensures Occupies(s)
  {
  }

  lemma StringDescriptor(conf: Conf, s: Section, k: nat)
    requires Acceptable(conf, s) && s.shType == SHT_STRTAB && k < |s.data|
    ensures s.data[k].ty == ELF_T_BYTE && s.data[k].align > 0 && IsPow2(s.data[k].align)
  {
    assert CheckData(conf, XlateShtype(s.shType), BaseAlign(conf, s), s.data[k]);
  }

  lemma PlacedIsLaid(t: Section)
    requires WellPlaced(t) && t.sSize < HALF
    requires forall k :: 0 <= k < |t.data| ==>
        t.data[k].ty == ELF_T_BYTE && t.data[k].align > 0 && IsPow2(t.data[k].align)
    requires forall k :: 0 <= k < |t.data| ==> t.data[k].align > 0 && t.data[k].off % t.data[k].align == 0
    ensures Laid(t.data)
  {
    hide ElfRound.IsPow2;
  }

  /** Descriptors keep everything but d_off, which becomes a multiple of the largest alignment. */
  lemma DescriptorsKept(conf: Conf, s: Section, rc: u64)
    requires !conf.layout && Occupies(s) && s.dirty && Acceptable(conf, s) && EndOf(conf, s, rc) < HALF
    ensures Extents(conf, s, rc).Done?
    ensures var t, m := Extents(conf, s, rc).s, MaxAlign(s.data, |s.data|);
            && |t.data| == |s.data|
            && forall k :: 0 <= k < |s.data| ==>
                 && m > 0
                 && t.data[k] == s.data[k].(off := t.data[k].off)
                 && t.data[k].off == OffsetOf(s.data, m, k)
                 && t.data[k].off % s.data[k].align == 0
  {
    hide RoundUpW, PlacedW, SizeTo, MaxAlign;
    AlignPositive(conf, s);
    var m := MaxAlign(s.data, |s.data|);
    PlacedExact(s.data, m, |s.data|);
    forall k | 0 <= k < |s.data| ensures s.data[k].align > 0 && OffsetOf(s.data, m, k) % s.data[k].align == 0 {
      ZeroAligned(conf, s, k);
    }
  }

  lemma ZeroAligned(conf: Conf, s: Section, k: nat)
    requires Acceptable(conf, s) && k < |s.data| && MaxAlign(s.data, |s.data|) > 0
    ensures s.data[k].align > 0 && OffsetOf(s.data, MaxAlign(s.data, |s.data|), k) % s.data[k].align == 0
  {
    hide RoundUp, SizeTo, MaxAlign;
    DescriptorAligned(conf, s, 0, k);
  }

  /** The promised case: every non-empty descriptor has a buffer and all descriptors share one alignment. */
  ghost predicate Uniform(ds: seq<Data>) {
    && (forall k :: 0 <= k < |ds| && ds[k].size != 0 ==> ds[k].buf != 0)
    && (forall j, k :: 0 <= j < |ds| && 0 <= k < |ds| ==> ds[j].align == ds[k].align)
  }

  /** The layout's running size, rounded up, is the last live end, rounded up. */
  lemma {:induction false} RoundedEnds(ds: seq<Data>, t: seq<Data>, m: nat, k: nat)
    requires Uniform(ds) && m > 0 && |t| == |ds| && k <= |ds|
    requires forall i :: 0 <= i < |ds| ==> t[i] == ds[i].(off := t[i].off) && t[i].off == OffsetOf(ds, m, i)
    ensures RoundUp(SizeTo(ds, m, k), m) == RoundUp(LiveEnd(t, k), m)
  {
    hide ElfRound.RoundUp, ElfLayout.SizeTo;
    if k > 0 {
      RoundedEnds(ds, t, m, k - 1);
      SizeStep(ds, m, k - 1);
      var d := t[k - 1];
      assert d.size == ds[k - 1].size && d.buf == ds[k - 1].buf;
      if Live(d) {
        assert LiveEnd(t, k) == SizeTo(ds, m, k);
      } else {
        assert d.size == 0;
        assert SizeTo(ds, m, k) == RoundUp(SizeTo(ds, m, k - 1), m);
        RoundUpIdempotent(SizeTo(ds, m, k - 1), m);
      }
    } else {
      SizeOfNone(ds, m);
    }
  }

  lemma SizeOfNone(ds: seq<Data>, m: nat)
    requires m > 0
    ensures SizeTo(ds, m, 0) == 0
  {
  }

  lemma RoundUpIdempotent(x: nat, a: nat)
    requires a > 0
    ensures RoundUp(RoundUp(x, a), a) == RoundUp(x, a)
  {
    hide ElfRound.RoundUp;
    RoundUpLeast(RoundUp(x, a), a, RoundUp(x, a));
  }

  /** So elf_strptr agrees with the layout pass on every such section. */
  lemma UniformIsTight(conf: Conf, s: Section, rc: u64)
    requires !conf.layout && s.shType == SHT_STRTAB && s.dirty && Acceptable(conf, s) && EndOf(conf, s, rc) < HALF
    requires Uniform(s.data)
    ensures Extents(conf, s, rc).Done? && Tight(Extents(conf, s, rc).s.data)
  {
    hide RoundUp, RoundUpW, SizeTo, EndOf;
    DescriptorsKept(conf, s, rc);
    var t := Extents(conf, s, rc).s.data;
    var m := MaxAlign(s.data, |s.data|);
    forall k | 0 <= k < |t| && Live(t[k]) ensures t[k].off == Up(LiveEnd(t, k), t[k].align) {
      RoundedEnds(s.data, t, m, k);
      assert s.data[k].align == m;
      if m == 1 { RoundUpByOne(LiveEnd(t, k)); }
    }
  }

  lemma RoundUpByOne(x: nat)
    ensures RoundUp(x, 1) == x
  {
  }

  /** A string section before layout: three bytes, an empty descriptor aligned to eight, two bytes. */
  const THREE: seq<Data> := [Data(1, 1, 1, 3, 0, 100), Data(1, 1, 8, 0, 0, 0), Data(1, 1, 1, 2, 0, 200)]

  /** The same descriptors as the layout pass leaves them. */
  const THREE_LAID: seq<Data> := [Data(1, 1, 1, 3, 0, 100), Data(1, 1, 8, 0, 8, 0), Data(1, 1, 1, 2, 8, 200)]

  ghost function ThreeStrings(): Section {
    Section(1, SHT_STRTAB, 1, 0, 0, true, THREE, 0, 0)
  }

  const CONF64: Conf := Conf(false, 1, false)

  lemma ThreeAcceptable()
    ensures Acceptable(CONF64, ThreeStrings()) && MaxAlign(THREE, 3) == 8
  {
    assert IsPow2(1) && IsPow2(2) && IsPow2(4) && IsPow2(8);
    assert MaxAlign(THREE, 1) == 1;
    assert MaxAlign(THREE, 2) == 8;
  }

  lemma RoundUpToEight()
    ensures RoundUpW(0, 8) == 0 && RoundUpW(3, 8) == 8 && RoundUpW(8, 8) == 8
  {
  }

  lemma ThreePlaced()
    ensures PlacedW(THREE, 8, 3) == (THREE_LAID, 10)
  {
    RoundUpToEight();
    hide ElfRound.RoundUpW, ElfLayout.PlacedW;
    PlacedNone(THREE, 8);
    PlacedStep(THREE, 8, 0, [], 0, 0);
    assert [] + [THREE[0].(off := 0)] == [THREE_LAID[0]];
    PlacedStep(THREE, 8, 1, [THREE_LAID[0]], 3, 8);
    assert [THREE_LAID[0]] + [THREE[1].(off := 8)] == [THREE_LAID[0], THREE_LAID[1]];
    PlacedStep(THREE, 8, 2, [THREE_LAID[0], THREE_LAID[1]], 8, 8);
    assert [THREE_LAID[0], THREE_LAID[1]] + [THREE[2].(off := 8)] == THREE_LAID;
  }

  lemma PlacedNone(ds: seq<Data>, align: u64)
    ensures PlacedW(ds, align, 0) == ([], 0)
  {
  }

  lemma PlacedStep(ds: seq<Data>, align: u64, k: nat, p: seq<Data>, size: u64, o: u64)
    requires k < |ds| && align > 0 && PlacedW(ds, align, k) == (p, size) && RoundUpW(size, align) == o
    ensures PlacedW(ds, align, k + 1) == (p + [ds[k].(off := o)], (o + ds[k].size) % W)
  {
    hide ElfRound.RoundUpW;
  }

  lemma ThreeLaid(rc: u64)
    ensures Extents(CONF64, ThreeStrings(), rc).Done? && Extents(CONF64, ThreeStrings(), rc).s.data == THREE_LAID
  {
    ThreeAcceptable();
    ThreePlaced();
    hide ElfRound.RoundUpW, ElfLayout.PlacedW, ElfLayout.MaxAlign, ElfLayout.FinalAlign;
  }

  lemma ThreeWalk()
    ensures Resolve(THREE_LAID, 0, 3) == Null && Walk(THREE_LAID, 0, 0, 3) == At(200)
  {
    var ds := THREE_LAID;
    assert Resolve(ds, 3, 3) == Null;
    assert Resolve(ds, 2, 3) == Null;
    assert Resolve(ds, 1, 3) == Null;
    assert Walk(ds, 2, 3, 3) == At(200);
    assert Walk(ds, 1, 3, 3) == At(200);
  }

  /**
   Sharing one alignment among the live descriptors alone is not enough: the empty
   descriptor with a larger alignment moves its successor in the layout, and the
   walk does not see it.  Offset 3 lies in the hole the layout pass leaves, and is
   given an address.
   */
  lemma EmptyDescriptorBreaksAgreement(rc: u64)
    ensures var r := Extents(CONF64, ThreeStrings(), rc);
            && r.Done?
            && (forall j, k :: 0 <= j < |r.s.data| && 0 <= k < |r.s.data| && Live(r.s.data[j]) && Live(r.s.data[k]) ==>
                  r.s.data[j].align == r.s.data[k].align)
            && Resolve(r.s.data, 0, 3) == Null && Walk(r.s.data, 0, 0, 3) == At(200)
  {
    ThreeLaid(rc);
    ThreeWalk();
    hide ElfLayout.Extents, Resolve, Walk;
  }
}
