/** Physical memory protection: how a region is encoded in an address register
    and a configuration byte, and what the hardware reads out of them (section
    3.7.1 of the RISC-V Privileged Architecture, version 20211203). */
module Pmp {
  import opened Bits

  const OFF: nat := 0
  const TOR: nat := 1
  const NA4: nat := 2
  const NAPOT: nat := 3

  const SIZE_4B: int := -1

  datatype Attr = Attr(r: nat, w: nat, x: nat, a: nat, l: nat) {
    predicate Valid() {
      r < 2 && w < 2 && x < 2 && a < 4 && l < 2
    }
  }

  function TrailingOnes(p: nat): nat {
    if p % 2 == 0 then 0 else 1 + TrailingOnes(p / 2)
  }

  /** 1 << k */
  function Bit(k: nat): (b: nat)
    requires k < 32
    ensures 0 < b <= HALF
  {
    Pow2Values();
    Pow2Increasing(k, 31);
    Pow2(k)
  }

  /** The register value for a naturally aligned region of 2^(size+3) bytes. */
  function Encoded(base: nat, size: nat): nat
    requires size < 30
  {
    Or(And(base / 4, WORD - 1 - (Bit(size + 1) - 1)), Bit(size) - 1)
  }

  function PackedCfg(attr: Attr): nat {
    Or(Or(Or(Or(attr.r, attr.w * 2), attr.x * 4), attr.a * 8), attr.l * 128)
  }

  function Mode(cfg: nat): nat {
    cfg / 8 % 4
  }

  /** The hardware's match of byte address x against entry i. */
  ghost predicate Covers(addr: seq<nat>, cfg: seq<nat>, i: nat, x: nat)
    requires i < |addr| == |cfg|
  {
    var y, p, mode := x / 4, addr[i], Mode(cfg[i]);
    if mode == OFF then false
    else if mode == TOR then (if i == 0 then 0 else addr[i - 1]) <= y < p
    else if mode == NA4 then y == p
    else
      var t := TrailingOnes(p);
      y - Low(y, t + 1) == p - Low(p, t + 1)
  }

  /** A run of bytes from lo up to hi. */
  datatype Region = Region(lo: nat, hi: nat)

  /** The bytes entry i covers. */
  ghost function Decoded(addr: seq<nat>, cfg: seq<nat>, i: nat): Region
    requires i < |addr| == |cfg|
  {
    var p, mode := addr[i], Mode(cfg[i]);
    if mode == OFF then Region(0, 0)
    else if mode == TOR then Region(if i == 0 then 0 else 4 * addr[i - 1], 4 * p)
    else if mode == NA4 then Region(4 * p, 4 * p + 4)
    else
      var t := TrailingOnes(p);
      Region(4 * (p - Low(p, t + 1)), 4 * (p - Low(p, t + 1)) + Pow2(t + 3))
  }

  /** The match holds for exactly those bytes. */
  lemma CoversDecoded(addr: seq<nat>, cfg: seq<nat>, i: nat, x: nat)
    requires i < |addr| == |cfg|
    ensures Covers(addr, cfg, i, x) <==> Decoded(addr, cfg, i).lo <= x < Decoded(addr, cfg, i).hi
  {
    if Mode(cfg[i]) == NAPOT {
      var p := addr[i];
      var t := TrailingOnes(p);
      SameBlock(x / 4, p, t + 1);
      assert Pow2(t + 3) == 4 * Pow2(t + 1);
    }
  }

  /** The two words agree above bit k exactly when they lie in one block of 2^k. */
  lemma {:induction false} SameBlock(y: nat, p: nat, k: nat)
    ensures y - Low(y, k) == p - Low(p, k) <==> p - Low(p, k) <= y < p - Low(p, k) + Pow2(k)
  {
    if k > 0 {
      SameBlock(y / 2, p / 2, k - 1);
    }
  }

  /** A word whose low k bits are ones, with a zero above them. */
  lemma {:induction false} OnesBelowZero(a: nat, k: nat, p: nat)
    requires p == a - Low(a, k + 1) + Pow2(k) - 1
    ensures TrailingOnes(p) == k && p - Low(p, k + 1) == a - Low(a, k + 1)
  {
    ClearedHalf(a, k + 1);
    if k == 0 {
      assert p == 2 * (a / 2) && Low(p, 1) == 0;
    } else {
      var q := a / 2 - Low(a / 2, k) + Pow2(k - 1) - 1;
      OnesBelowZero(a / 2, k - 1, q);
      OddStep(q, k);
      assert p == 2 * q + 1;
    }
  }

  lemma OddStep(q: nat, k: nat)
    ensures TrailingOnes(2 * q + 1) == 1 + TrailingOnes(q) && Low(2 * q + 1, k + 1) == 2 * Low(q, k) + 1
  {
    assert (2 * q + 1) / 2 == q && (2 * q + 1) % 2 == 1;
  }

  lemma {:induction false} LowCleared(a: nat, k: nat)
    ensures Low(a - Low(a, k), k) == 0
  {
    if k > 0 {
      LowCleared(a / 2, k - 1);
      ClearedHalf(a, k);
      LowDouble(a / 2 - Low(a / 2, k - 1), k);
    }
  }

  lemma ClearedHalf(a: nat, k: nat)
    requires k > 0
    ensures a - Low(a, k) == 2 * (a / 2 - Low(a / 2, k - 1))
  {
    assert a == 2 * (a / 2) + a % 2;
  }

  lemma {:induction false} LowShorter(a: nat, j: nat, k: nat)
    requires j <= k && Low(a, k) == 0
    ensures Low(a, j) == 0
  {
    if j > 0 {
      LowShorter(a / 2, j - 1, k - 1);
    }
  }

  /** The encoding is the rounded address with the size marked below it. */
  lemma EncodedShape(base: nat, size: nat)
    requires base < WORD && size < 30
    ensures Encoded(base, size) == base / 4 - Low(base / 4, size + 1) + Pow2(size) - 1
  {
    RoundedBits(base / 4, size);
    MarkedBits(base / 4, size);
  }

  lemma RoundedBits(a: nat, size: nat)
    requires a < WORD && size < 30
    ensures And(a, WORD - 1 - (Bit(size + 1) - 1)) == a - Low(a, size + 1)
  {
    assert Pow2(32) == WORD by {
      Pow2Values();
    }
    AndHighMask(a, size + 1, 32, WORD - 1 - (Bit(size + 1) - 1));
  }

  lemma MarkedBits(a: nat, size: nat)
    requires size < 30
    ensures Or(a - Low(a, size + 1), Bit(size) - 1) == a - Low(a, size + 1) + Pow2(size) - 1
  {
    LowCleared(a, size + 1);
    LowShorter(a - Low(a, size + 1), size, size + 1);
    OrDisjoint(a - Low(a, size + 1), Bit(size) - 1, size);
  }

  lemma LowTwoMore(base: nat, k: nat)
    ensures Low(base, k + 2) == 4 * Low(base / 4, k) + base % 4
  {
    assert Low(base, k + 2) == 2 * Low(base / 2, k + 1) + base % 2;
    Quarter(base);
  }

  /** Decoding the register value gives the aligned block of 2^(size+3) bytes
      around the requested base. */
  lemma NapotRegion(base: nat, size: nat)
    requires base < WORD && size < 30
    ensures var p := Encoded(base, size);
      && TrailingOnes(p) == size && 4 * (p - Low(p, size + 1)) == base - Low(base, size + 3)
  {
    var a, p := base / 4, Encoded(base, size);
    EncodedShape(base, size);
    OnesBelowZero(a, size, p);
    LowTwoMore(base, size + 1);
  }

  lemma FieldAbove(low: nat, field: nat, k: nat, unit: nat)
    requires unit == Pow2(k) && low < unit
    ensures Or(low, field * unit) == low + field * unit
  {
    OrShifted(low, field, k, field * unit);
  }

  lemma CfgShape(attr: Attr)
    requires attr.Valid()
    ensures PackedCfg(attr) == attr.r + 2 * attr.w + 4 * attr.x + 8 * attr.a + 128 * attr.l
  {
    SmallPowers();
    CfgLow(attr.r, attr.w, attr.x);
    var rwx := attr.r + attr.w * 2 + attr.x * 4;
    FieldAbove(rwx, attr.a, 3, 8);
    FieldAbove(rwx + attr.a * 8, attr.l, 7, 128);
  }

  lemma SmallPowers()
    ensures Pow2(1) == 2 && Pow2(2) == 4 && Pow2(3) == 8 && Pow2(7) == 128
  {
    assert Pow2(3) == 8;
    assert Pow2(7) == 16 * Pow2(3);
  }

  lemma CfgLow(r: nat, w: nat, x: nat)
    requires r < 2 && w < 2 && x < 2
    ensures Or(Or(r, w * 2), x * 4) == r + w * 2 + x * 4
  {
    SmallPowers();
    FieldAbove(r, w, 1, 2);
    FieldAbove(r + w * 2, x, 2, 4);
  }

  /** The fields of a configuration byte. */
  function Fields(cfg: nat): Attr {
    Attr(cfg % 2, cfg / 2 % 2, cfg / 4 % 2, Mode(cfg), cfg / 128)
  }

  lemma FieldsOfSum(attr: Attr, cfg: nat)
    requires attr.Valid() && cfg == attr.r + 2 * attr.w + 4 * attr.x + 8 * attr.a + 128 * attr.l
    ensures Fields(cfg) == attr
  {
    assert cfg / 2 == attr.w + 2 * attr.x + 4 * attr.a + 64 * attr.l;
    assert cfg / 4 == attr.x + 2 * attr.a + 32 * attr.l;
    assert cfg / 8 == attr.a + 16 * attr.l;
  }

  /** They are unpacked as they were packed. */
  lemma FieldsPacked(attr: Attr)
    requires attr.Valid()
    ensures Fields(PackedCfg(attr)) == attr
  {
    CfgShape(attr);
    FieldsOfSum(attr, PackedCfg(attr));
  }

  /** What a call asks for: with NAPOT the aligned block of 2^(size+3) bytes
      around the base, with size 4B the word of the base, with TOR the bytes
      from the previous entry's address up to the base's word. */
  ghost function Asked(addr: seq<nat>, idx: nat, base: nat, size: int, a: nat): Region
    requires idx < |addr| && size >= -1
  {
    if a == TOR then Region(if idx == 0 then 0 else 4 * addr[idx - 1], base - base % 4)
    else if size == SIZE_4B then Region(base - base % 4, base - base % 4 + 4)
    else
      var k: nat := size + 3;
      Region(base - Low(base, k), base - Low(base, k) + Pow2(k))
  }

  /** The block asked for is aligned to its size and has the base in it, and it
      starts at the base exactly when the base is so aligned. */
  lemma AskedAligned(addr: seq<nat>, idx: nat, base: nat, size: nat)
    requires idx < |addr|
    ensures var r := Asked(addr, idx, base, size, NAPOT);
      && r.hi == r.lo + Pow2(size + 3) && Low(r.lo, size + 3) == 0 && r.lo <= base < r.hi
      && (r.lo == base <==> Low(base, size + 3) == 0)
  {
    LowCleared(base, size + 3);
  }

  lemma DecodedAsAsked(was: seq<nat>, addr: seq<nat>, cfg: seq<nat>, idx: nat, base: nat, size: int, a: nat)
    requires idx < |was| == |cfg| == |addr| && base < WORD && -1 <= size < 30 && a < 4 && (a == NAPOT ==> size >= 0)
    requires addr == was[idx := if a == NAPOT then Encoded(base, size) else if a == OFF then addr[idx] else base / 4]
    requires Mode(cfg[idx]) == a && (a == NA4 ==> size == SIZE_4B)
    ensures Decoded(addr, cfg, idx) == if a == OFF then Region(0, 0) else Asked(was, idx, base, size, a)
  {
    assert 4 * (base / 4) == base - base % 4;
    if a == NAPOT {
      NapotRegion(base, size);
    }
  }

  /** Rewriting an address register moves what another entry covers for no new
      value exactly when that entry is not the next one in the TOR mode, which
      starts where the register says. */
  lemma OthersKept(addr: seq<nat>, cfg: seq<nat>, idx: nat, j: nat)
    requires idx < |addr| == |cfg| && j < |addr| && j != idx
    ensures (forall now: seq<nat> :: Rewritten(addr, now, idx) ==> Decoded(now, cfg, j) == Decoded(addr, cfg, j))
       <==> j != idx + 1 || Mode(cfg[j]) != TOR
  {
    if j == idx + 1 && Mode(cfg[j]) == TOR {
      var p: nat := if addr[idx] == 0 then 1 else 0;
      var now := addr[idx := p];
      assert Rewritten(addr, now, idx) && Decoded(now, cfg, j).lo == 4 * p;
    }
  }

  /** The registers with another 32-bit value in the one of entry idx. */
  ghost predicate Rewritten(addr: seq<nat>, now: seq<nat>, idx: nat) {
    idx < |addr| == |now| && now[idx] < WORD && now == addr[idx := now[idx]]
  }

  lemma OthersStay(was: seq<nat>, cfgWas: seq<nat>, addr: seq<nat>, cfg: seq<nat>, idx: nat)
    requires idx < |was| == |cfgWas| == |addr| == |cfg|
    requires addr == was[idx := addr[idx]] && cfg == cfgWas[idx := cfg[idx]]
    ensures forall j :: 0 <= j < |addr| && j != idx && (j != idx + 1 || Mode(cfg[j]) != TOR) ==>
              Decoded(addr, cfg, j) == Decoded(was, cfgWas, j)
    ensures idx + 1 < |addr| && Mode(cfg[idx + 1]) == TOR ==>
              Decoded(addr, cfg, idx + 1) == Region(4 * addr[idx], Decoded(was, cfgWas, idx + 1).hi)
  {
  }

  class PmpUnit {
    var addr: seq<nat>  // pmpaddr0 to pmpaddr15
    var cfg: seq<nat>   // pmp0cfg to pmp15cfg

    constructor (addr: seq<nat>, cfg: seq<nat>)
      requires |addr| == |cfg| == 16
      ensures Valid() && this.addr == addr && this.cfg == cfg
    {
      this.addr, this.cfg := addr, cfg;
    }

    ghost predicate Valid()
      reads this
    {
      |addr| == |cfg| == 16
    }

    /** `csi_mpu_config_region`.  An enabled entry covers exactly what the call
        asks for; a disabled one covers nothing, except that with size 4B it
        covers the base's word all the same.  No other entry's registers change,
        and none covers anything else than before, but a TOR entry next to this
        one now starts where this one's address register says. */
    method ConfigRegion(idx: nat, base: nat, size: int, region: Attr, enable: nat)
      requires Valid() && base < WORD && -1 <= size < 30
      requires region.Valid() && (region.a == 0 || region.a == 1 || region.a == 3)
      modifies this
      ensures Valid()
      ensures idx > 15 ==> addr == old(addr) && cfg == old(cfg)
      ensures forall j :: 0 <= j < 16 && j != idx ==> addr[j] == old(addr)[j] && cfg[j] == old(cfg)[j]
      ensures idx <= 15 && enable != 0 && region.a != OFF ==>
                Decoded(addr, cfg, idx) == Asked(old(addr), idx, base, size, region.a)
      ensures idx <= 15 && (enable == 0 || region.a == OFF) && size >= 0 ==>
                Decoded(addr, cfg, idx) == Region(0, 0)
      ensures idx <= 15 && (enable == 0 || region.a == OFF) && size == SIZE_4B ==>
                Decoded(addr, cfg, idx) == Asked(old(addr), idx, base, size, NA4)
      ensures forall j :: 0 <= j < 16 && j != idx && (j != idx + 1 || Mode(cfg[j]) != TOR) ==>
                Decoded(addr, cfg, j) == old(Decoded(addr, cfg, j))
      ensures idx < 15 && Mode(cfg[idx + 1]) == TOR ==>
                Decoded(addr, cfg, idx + 1) == Region(4 * addr[idx], old(Decoded(addr, cfg, idx + 1).hi))
      ensures idx <= 15 ==>
                cfg[idx] == region.r + 2 * region.w + 4 * region.x + 128 * region.l
                            + 8 * (if enable != 0 && region.a == 1 then 1 else if size == -1 then 2
                                   else if enable != 0 then region.a else 0)
      ensures idx <= 15 ==>
                addr[idx] == if (enable != 0 && region.a == 1) || size == -1 then base / 4
                             else base / 4 - Low(base / 4, size + 1) + Pow2(size) - 1
      ensures idx <= 15 ==> Fields(cfg[idx]) == region.(a := Mode(cfg[idx]))
    {
      if idx > 15 {
        return;
      }
      var attr := region;
      if enable == 0 {
        attr := attr.(a := OFF);
      }
      var value: nat;
      if attr.a == TOR {
        value := base / 4;
      } else if size == SIZE_4B {
        value := base / 4;
        attr := attr.(a := NA4);
      } else {
        value := Encoded(base, size);
        EncodedShape(base, size);
      }
      CfgShape(attr);
      ghost var was, cfgWas := addr, cfg;
      addr := addr[idx := value];
      cfg := cfg[idx := PackedCfg(attr)];
      FieldsPacked(attr);
      OthersStay(was, cfgWas, addr, cfg, idx);
      DecodedAsAsked(was, addr, cfg, idx, base, size, attr.a);
    }
  }
}
