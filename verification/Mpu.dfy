/** Memory protection regions packed into three control registers. */
module Mpu {

  /** 1 << k, as a mask of the low k bits. */
  function Ones(k: bv32): bv32
    requires k <= 32
  {
    (1 << k) - 1
  }

  function Cleared(capr: bv32, idx: bv32): bv32
    requires idx < 8
  {
    capr & !(((1 as bv32) << idx) | ((3 as bv32) << (idx * 2 + 8)) | ((1 as bv32) << (idx + 24)))
  }

  function Merged(capr: bv32, idx: bv32, nx: bv32, ap: bv32, s: bv32): bv32
    requires idx < 8 && nx < 2 && ap < 4 && s < 2
  {
    Cleared(capr, idx) | (nx << idx) | (ap << (idx * 2 + 8)) | (s << (idx + 24))
  }

  function Nx(capr: bv32, i: bv32): bv32
    requires i < 8
  {
    (capr >> i) & 1
  }

  function Ap(capr: bv32, i: bv32): bv32
    requires i < 8
  {
    (capr >> (i * 2 + 8)) & 3
  }

  function Sec(capr: bv32, i: bv32): bv32
    requires i < 8
  {
    (capr >> (i + 24)) & 1
  }

  lemma MergedOwn(capr: bv32, idx: bv32, nx: bv32, ap: bv32, s: bv32)
    requires idx < 8 && nx < 2 && ap < 4 && s < 2
    ensures Nx(Merged(capr, idx, nx, ap, s), idx) == nx
    ensures Ap(Merged(capr, idx, nx, ap, s), idx) == ap
    ensures Sec(Merged(capr, idx, nx, ap, s), idx) == s
  {
  }

  lemma NxOther(capr: bv32, idx: bv32, nx: bv32, ap: bv32, s: bv32, i: bv32)
    requires idx < 8 && nx < 2 && ap < 4 && s < 2 && i < 8 && i != idx
    ensures Nx(Merged(capr, idx, nx, ap, s), i) == Nx(capr, i)
  {
  }

  lemma ApOther(capr: bv32, idx: bv32, nx: bv32, ap: bv32, s: bv32, i: bv32)
    requires idx < 8 && nx < 2 && ap < 4 && s < 2 && i < 8 && i != idx
    ensures Ap(Merged(capr, idx, nx, ap, s), i) == Ap(capr, i)
  {
  }

  lemma SecOther(capr: bv32, idx: bv32, nx: bv32, ap: bv32, s: bv32, i: bv32)
    requires idx < 8 && nx < 2 && ap < 4 && s < 2 && i < 8 && i != idx
    ensures Sec(Merged(capr, idx, nx, ap, s), i) == Sec(capr, i)
  {
  }

  /** A region as the hardware sees it: place and size, and access attributes. */
  datatype Place = Place(base: bv32, size: bv32, on: bool)

  datatype Attr = Attr(nx: bv32, ap: bv32, s: bv32) {
    predicate Valid() {
      nx < 2 && ap < 4 && s < 2
    }
  }

  ghost function PlaceOf(pacr: bv32): Place {
    Place(pacr & 0xFFFF_F000, (pacr >> 1) & 0x1F, pacr & 1 == 1)
  }

  /** Bits i, 2i+8, 2i+9 and i+24. */
  ghost function AttrOf(capr: bv32, i: bv32): (a: Attr)
    requires i < 8
    ensures a.nx == (capr >> i) & 1 && a.ap == (capr >> (2 * i + 8)) & 3 && a.s == (capr >> (i + 24)) & 1
  {
    Attr(Nx(capr, i), Ap(capr, i), Sec(capr, i))
  }

  /** The PACR word a call builds out of the one it happened to read. */
  function Packed(read: bv32, base: bv32, size: bv32, enable: bv32): bv32
    requires 11 <= size < 32
  {
    var based := (read & 0xFFF) | (((base >> 12) & 0xF_FFFF) << 12);
    var rounded := if size != 11 then based & !(Ones(size - 11) << 12) else based;
    var sized := (rounded & !0x3E) | (size << 1);
    (sized & !1) | (enable & 1)
  }

  /** Whatever was read, the word holds the base rounded down to 2^(size+1), the
      size and the enable bit asked for. */
  lemma PackedPlace(read: bv32, base: bv32, size: bv32, enable: bv32)
    requires 11 <= size < 32
    ensures PlaceOf(Packed(read, base, size, enable)) == Place(base & !Ones(size + 1), size, enable & 1 == 1)
  {
  }

  /** The reserved bits are the exception: they come from the region that was
      selected before. */
  lemma ReservedCarried(read: bv32, base: bv32, size: bv32, enable: bv32)
    requires 11 <= size < 32
    ensures Packed(read, base, size, enable) & 0xFC0 == read & 0xFC0
  {
  }

  /** The whole word: the base with its low size + 1 bits cleared, the reserved bits
      of the word that was read, the size and the enable bit. */
  lemma PackedWord(read: bv32, base: bv32, size: bv32, enable: bv32)
    requires 11 <= size < 32
    ensures Packed(read, base, size, enable)
         == ((base >> size >> 1) << size << 1) | (read & 0xFC0) | (size << 1) | (enable & 1)
  {
  }

  lemma RoundedPlace(base: bv32, size: bv32)
    requires 11 <= size < 32
    ensures base & !Ones(size + 1) == (base >> size >> 1) << size << 1
  {
  }

  /** Bit by bit, what rounding down leaves of the base. */
  lemma RoundedBit(base: bv32, size: bv32, i: bv32)
    requires size < 32 && i < 32
    ensures (((base >> size >> 1) << size << 1) >> i) & 1 == if i <= size then 0 else (base >> i) & 1
  {
  }

  /** Rounding down with a mask clears the masked bits and nothing else, so it
      gives back the word exactly when those bits are clear. */
  lemma RoundedDown(w: bv32, m: bv32)
    ensures w & !m <= w && (w & !m) | (w & m) == w && (w & !m) & m == 0
    ensures w & !m == w <==> w & m == 0
  {
    SplitUnder(w, m);
    SplitParts(w, m);
    SplitNothing(w, m);
  }

  lemma SplitUnder(w: bv32, m: bv32)
    ensures w & !m <= w
  {
  }

  lemma SplitParts(w: bv32, m: bv32)
    ensures (w & !m) | (w & m) == w && (w & !m) & m == 0
  {
  }

  lemma SplitNothing(w: bv32, m: bv32)
    ensures w & !m == w <==> w & m == 0
  {
    if w & m == 0 {
      NothingUnder(w, m);
    } else if w & !m == w {
      AllOutside(w, m);
    }
  }

  lemma NothingUnder(w: bv32, m: bv32)
    requires w & m == 0
    ensures w & !m == w
  {
  }

  lemma AllOutside(w: bv32, m: bv32)
    requires w & !m == w
    ensures w & m == 0
  {
  }

  /** A region number as a machine word, and back. */
  function Word(i: nat): (w: bv32)
    requires i < 8
    ensures w < 8
  {
    if i == 0 then 0 else if i == 1 then 1 else if i == 2 then 2 else if i == 3 then 3
    else if i == 4 then 4 else if i == 5 then 5 else if i == 6 then 6 else 7
  }

  function Number(w: bv32): (i: nat)
    requires w < 8
    ensures i < 8
  {
    if w == 0 then 0 else if w == 1 then 1 else if w == 2 then 2 else if w == 3 then 3
    else if w == 4 then 4 else if w == 5 then 5 else if w == 6 then 6 else 7
  }

  lemma WordNumber(i: nat)
    requires i < 8
    ensures Number(Word(i)) == i
  {
  }

  /** The region a PRSR word selects. */
  function Selected(prsr: bv32): (i: nat)
    ensures i < 8
  {
    Number(prsr & 7)
  }

  /** That is the number in its low three bits. */
  lemma SelectedIs(prsr: bv32)
    ensures Selected(prsr) == (prsr & 7) as int
  {
    NumberIs(prsr & 7);
  }

  lemma NumberIs(w: bv32)
    requires w < 8
    ensures Number(w) == w as int
  {
  }

  lemma WordIs(i: nat)
    requires i < 8
    ensures Word(i) as int == i
  {
  }

  function Selecting(prsr: bv32, i: nat): bv32
    requires i < 8
  {
    (prsr & !7) | Word(i)
  }

  lemma SelectingSelects(prsr: bv32, i: nat)
    requires i < 8
    ensures Selected(Selecting(prsr, i)) == i
  {
    LowThree(prsr, Word(i));
    WordNumber(i);
  }

  lemma LowThree(prsr: bv32, idx: bv32)
    requires idx < 8
    ensures ((prsr & !7) | idx) & 7 == idx
  {
  }

  method TurnOn(w: bv32) returns (r: bv32)
    ensures r == w | 1 && PlaceOf(r) == PlaceOf(w).(on := true)
  {
    r := w | 1;
  }

  method TurnOff(w: bv32) returns (r: bv32)
    ensures r == w & !1 && PlaceOf(r) == PlaceOf(w).(on := false)
  {
    r := w & !1;
  }

  /** Merging attributes into CAPR sets those of one region and keeps the others'. */
  lemma MergedAttr(capr: bv32, idx: bv32, a: Attr, i: bv32)
    requires idx < 8 && i < 8 && a.Valid()
    ensures AttrOf(Merged(capr, idx, a.nx, a.ap, a.s), i) == if i == idx then a else AttrOf(capr, i)
  {
    if i == idx {
      MergedOwn(capr, idx, a.nx, a.ap, a.s);
    } else {
      NxOther(capr, idx, a.nx, a.ap, a.s, i);
      ApOther(capr, idx, a.nx, a.ap, a.s, i);
      SecOther(capr, idx, a.nx, a.ap, a.s, i);
    }
  }

  method PackPacr(read: bv32, base: bv32, size: bv32, enable: bv32) returns (w: bv32)
    requires 11 <= size < 32
    ensures PlaceOf(w) == Place(base & !Ones(size + 1), size, enable & 1 == 1)
    ensures PlaceOf(w).base == (base >> size >> 1) << size << 1
    ensures w == ((base >> size >> 1) << size << 1) | (read & 0xFC0) | (size << 1) | (enable & 1)
  {
    PackedWord(read, base, size, enable);
    RoundedPlace(base, size);
    w := Packed(read, base, size, enable);
    PackedPlace(read, base, size, enable);
  }

  method MergeCapr(capr: bv32, idx: nat, a: Attr) returns (w: bv32)
    requires idx < 8 && a.Valid()
    ensures forall i: nat :: i < 8 ==> AttrOf(w, Word(i)) == if i == idx then a else AttrOf(capr, Word(i))
  {
    w := Merged(capr, Word(idx), a.nx, a.ap, a.s);
    forall i: nat | i < 8
      ensures AttrOf(w, Word(i)) == if i == idx then a else AttrOf(capr, Word(i))
    {
      WordNumber(i);
      WordNumber(idx);
      MergedAttr(capr, Word(idx), a, Word(i));
    }
  }

  /** A call on the unit. */
  datatype Call =
    | Config(idx: nat, base: bv32, size: bv32, attr: Attr, enable: bv32)
    | Enable(idx: nat)
    | Disable(idx: nat)
  {
    ghost predicate Valid() {
      Config? ==> 11 <= size < 32 && attr.Valid()
    }
  }

  datatype Region = Region(place: Place, attr: Attr)

  /** What a configuring call asks for: the base is rounded down to 2^(size+1). */
  ghost function Asked(base: bv32, size: bv32, attr: Attr, enable: bv32): Region
    requires size < 32
  {
    Region(Place(base & !Ones(size + 1), size, enable & 1 == 1), attr)
  }

  /** What a call does to region i, and what a run of calls does. */
  ghost function After(r: Region, i: nat, c: Call): Region
    requires c.Valid()
  {
    if c.idx != i then r
    else match c {
      case Config(_, base, size, attr, enable) => Asked(base, size, attr, enable)
      case Enable(_) => Region(r.place.(on := true), r.attr)
      case Disable(_) => Region(r.place.(on := false), r.attr)
    }
  }

  ghost function AfterAll(r: Region, i: nat, cs: seq<Call>): Region
    requires forall c :: c in cs ==> c.Valid()
  {
    if cs == [] then r else After(AfterAll(r, i, cs[..|cs| - 1]), i, cs[|cs| - 1])
  }

  /** Calls for other regions do not matter. */
  lemma {:induction false} OthersDoNotMatter(r: Region, i: nat, cs: seq<Call>, more: seq<Call>)
    requires forall c :: c in cs + more ==> c.Valid()
    requires forall c :: c in more ==> c.idx != i
    ensures AfterAll(r, i, cs + more) == AfterAll(r, i, cs)
    decreases |more|
  {
    if more == [] {
      assert cs + more == cs;
    } else {
      var init, last := more[..|more| - 1], more[|more| - 1];
      assert cs + more == cs + init + [last];
      assert (cs + more)[..|cs + more| - 1] == cs + init;
      assert last in more;
      OthersDoNotMatter(r, i, cs, init);
    }
  }

  /** So the last configuring call for a region is the one that counts. */
  lemma LastConfigCounts(r: Region, cs: seq<Call>, last: Call, more: seq<Call>)
    requires (forall c :: c in cs + [last] + more ==> c.Valid()) && last.Valid() && last.Config?
    requires forall c :: c in more ==> c.idx != last.idx
    ensures AfterAll(r, last.idx, cs + [last] + more) == Asked(last.base, last.size, last.attr, last.enable)
  {
    var upto := cs + [last];
    OthersDoNotMatter(r, last.idx, upto, more);
    assert upto[..|cs|] == cs && upto[|cs|] == last;
  }

  class MpuUnit {
    var capr: bv32
    var prsr: bv32
    var banks: seq<bv32>  // PACR, one for each region

    constructor (capr: bv32, prsr: bv32, banks: seq<bv32>)
      requires |banks| == 8
      ensures Valid() && this.capr == capr && this.prsr == prsr && this.banks == banks
    {
      this.capr, this.prsr, this.banks := capr, prsr, banks;
    }

    ghost predicate Valid()
      reads this
    {
      |banks| == 8
    }

    ghost function PlaceAt(i: nat): Place
      requires Valid() && i < 8
      reads this
    {
      PlaceOf(banks[i])
    }

    ghost function AttrAt(i: nat): Attr
      requires i < 8
      reads this
    {
      AttrOf(capr, Word(i))
    }

    ghost function RegionAt(i: nat): Region
      requires Valid() && i < 8
      reads this
    {
      Region(PlaceAt(i), AttrAt(i))
    }

    method Select(idx: nat)
      requires idx < 8
      modifies this`prsr
      ensures Selected(prsr) == idx
    {
      SelectingSelects(prsr, idx);
      prsr := Selecting(prsr, idx);
    }

    /** `csi_mpu_config_region`: the region is what was asked for, its base rounded
        down, and the other seven are what they were, although the call reads
        PACR before it selects the region. */
    method ConfigRegion(idx: nat, base: bv32, size: bv32, attr: Attr, enable: bv32)
      requires Valid() && 11 <= size < 32 && attr.Valid()
      modifies this
      ensures Valid()
      ensures idx < 8 ==> RegionAt(idx) == Asked(base, size, attr, enable)
      ensures forall i: nat :: i < 8 && i != idx ==> RegionAt(i) == old(RegionAt(i))
      ensures idx < 8 ==> banks == old(banks)[idx := banks[idx]] && Selected(prsr) == idx
      ensures idx < 8 ==>
                banks[idx] == ((base >> size >> 1) << size << 1) | (old(banks[Selected(prsr)]) & 0xFC0)
                                | (size << 1) | (enable & 1)
      ensures idx < 8 ==> PlaceAt(idx).base == (base >> size >> 1) << size << 1
      ensures idx > 7 ==> banks == old(banks) && capr == old(capr) && prsr == old(prsr)
    {
      if idx > 7 {
        return;
      }
      var w := PackPacr(banks[Selected(prsr)], base, size, enable);
      Select(idx);
      capr := MergeCapr(capr, idx, attr);
      banks := banks[Selected(prsr) := w];
    }

    /** `csi_mpu_enable_region` and `csi_mpu_disable_region` turn one region on
        or off and change nothing else of it or of the others. */
    method EnableRegion(idx: nat)
      requires Valid()
      modifies this
      ensures Valid()
      ensures capr == old(capr) && (idx > 7 ==> banks == old(banks))
      ensures idx < 8 ==> Selected(prsr) == idx && banks == old(banks)[idx := banks[idx]]
      ensures idx < 8 ==> banks[idx] == old(banks)[idx] | 1
      ensures idx < 8 ==> RegionAt(idx) == Region(old(PlaceAt(idx)).(on := true), old(AttrAt(idx)))
      ensures forall i: nat :: i < 8 && i != idx ==> RegionAt(i) == old(RegionAt(i))
    {
      if idx > 7 {
        return;
      }
      Select(idx);
      var w := TurnOn(banks[Selected(prsr)]);
      banks := banks[Selected(prsr) := w];
    }

    method DisableRegion(idx: nat)
      requires Valid()
      modifies this
      ensures Valid()
      ensures capr == old(capr) && (idx > 7 ==> banks == old(banks))
      ensures idx < 8 ==> Selected(prsr) == idx && banks == old(banks)[idx := banks[idx]]
      ensures idx < 8 ==> banks[idx] == old(banks)[idx] & !1
      ensures idx < 8 ==> RegionAt(idx) == Region(old(PlaceAt(idx)).(on := false), old(AttrAt(idx)))
      ensures forall i: nat :: i < 8 && i != idx ==> RegionAt(i) == old(RegionAt(i))
    {
      if idx > 7 {
        return;
      }
      Select(idx);
      var w := TurnOff(banks[Selected(prsr)]);
      banks := banks[Selected(prsr) := w];
    }

    method Do(c: Call)
      requires Valid() && c.Valid()
      modifies this
      ensures Valid()
      ensures forall i: nat :: i < 8 ==> RegionAt(i) == After(old(RegionAt(i)), i, c)
    {
      match c {
        case Config(idx, base, size, attr, enable) => ConfigRegion(idx, base, size, attr, enable);
        case Enable(idx) => EnableRegion(idx);
        case Disable(idx) => DisableRegion(idx);
      }
    }

    /** Any run of calls, in any order over any regions, leaves each region as if
        the calls for the others had not been made. */
    method Run(cs: seq<Call>)
      requires Valid() && forall c :: c in cs ==> c.Valid()
      modifies this
      ensures Valid()
      ensures forall i: nat :: i < 8 ==> RegionAt(i) == AfterAll(old(RegionAt(i)), i, cs)
    {
      for k := 0 to |cs|
        invariant Valid()
        invariant forall i: nat :: i < 8 ==> RegionAt(i) == AfterAll(old(RegionAt(i)), i, cs[..k])
      {
        assert cs[..k + 1][..k] == cs[..k];
        Do(cs[k]);
      }
      assert cs[..|cs|] == cs;
    }
  }
}
