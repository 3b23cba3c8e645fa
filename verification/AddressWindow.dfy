/** The uncached window of the chip: some cached addresses are also reachable,
    past the cache, with their top four bits cleared. */
module AddressWindow {
  import opened Bits
  import opened Lines

  const WINDOW: nat := 0x1000_0000
  const MASK: nat := 0x0FFF_FFFF

  /** The address with its top four bits cleared: its place in its 256 MB segment. */
  function Masked(a: nat): (m: nat)
    ensures m <= a && m < WINDOW && (m == a <==> a < WINDOW)
  {
    a - Base(a, WINDOW)
  }

  lemma {:induction false} LowRepeats(a: nat, k: nat)
    ensures Low(a + Pow2(k), k) == Low(a, k)
  {
    if k > 0 {
      var p := Pow2(k - 1);
      assert (a + 2 * p) / 2 == a / 2 + p && (a + 2 * p) % 2 == a % 2;
      LowRepeats(a / 2, k - 1);
    }
  }

  lemma {:induction false} LowInBlock(a: nat, k: nat)
    ensures Low(a, k) == a - Base(a, Pow2(k))
    decreases a
  {
    if a < Pow2(k) {
      LowAll(a, k);
    } else {
      LowInBlock(a - Pow2(k), k);
      LowRepeats(a - Pow2(k), k);
    }
  }

  lemma MaskedValue(a: nat)
    ensures And(a, MASK) == Masked(a)
  {
    Pow2Values();
    assert Pow2(28) == 16 * Pow2(24);
    AndLowMask(a, 28, MASK);
    LowInBlock(a, 28);
  }

  lemma {:induction false} SegmentAligned(a: nat)
    ensures Base(a, WINDOW) % 32 == 0
  {
    if a >= WINDOW {
      SegmentAligned(a - WINDOW);
    }
  }

  lemma MaskedAligned(a: nat)
    requires a % 32 == 0
    ensures Masked(a) % 32 == 0
  {
    SegmentAligned(a);
    Moved(a, 0, Base(a, WINDOW));
  }

  lemma Moved(t: nat, to: nat, from: nat)
    requires t % 32 == 0 && to % 32 == 0 && from % 32 == 0
    ensures (t + (to - from)) % 32 == 0
  {
    assert t + (to - from) == 32 * (t / 32 + to / 32 - from / 32);
  }

  /** The cached addresses from lo up to hi that have a window; none if lo == hi. */
  datatype Alias = Alias(lo: nat, hi: nat) {
    predicate Valid() {
      && WINDOW <= lo <= hi <= WORD && lo % 32 == 0 && hi % 32 == 0
      && hi - lo <= WINDOW - Start()
    }

    function Start(): (s: nat)
      ensures s <= lo && s < WINDOW
    {
      Masked(lo)
    }

    /** The address is one of the window. */
    predicate Holds(t: nat) {
      Start() <= t < Start() + (hi - lo)
    }

    /** The cached address it stands for. */
    function Home(t: nat): nat {
      t + (lo - Start())
    }

    /** A range that has a window throughout. */
    predicate Covers(at: nat, size: nat) {
      lo <= at && at + size <= hi
    }

    /** A range of cached addresses: none of it is in the window itself. */
    predicate Misses(at: nat, size: nat) {
      lo == hi || at + size <= Start() || Start() + (hi - lo) <= at
    }
  }

  const PSRAM_BASE: nat := 0x2800_0000
  const PSRAM_END_ADDR: nat := 0x3000_0000
  const PSRAM_BASE_I: nat := 0x0800_0000

  /** On this chip the external memory has a window, and it alone is data-cached. */
  predicate OnChip(w: Alias) {
    w.lo == PSRAM_BASE && w.hi == PSRAM_END_ADDR
  }

  /** Addresses up to the end of a segment are in it. */
  lemma SameSegment(a: nat, b: nat)
    requires a <= b < a + (WINDOW - Masked(a))
    ensures Base(b, WINDOW) == Base(a, WINDOW)
  {
    BaseAligned(a, WINDOW);
    BaseUnique(b, Base(a, WINDOW), WINDOW);
  }

  lemma ChipWindow(w: Alias, a: nat)
    requires OnChip(w)
    ensures w.Valid() && w.lo == 0x2800_0000 && w.hi == 0x3000_0000 && w.Start() == 0x0800_0000
    ensures 0x2800_0000 <= a < 0x3000_0000 ==>
              Masked(a) == a - 0x2000_0000 && w.Holds(Masked(a)) && w.Home(Masked(a)) == a
  {
    assert Base(w.lo, WINDOW) == 0x2000_0000;
    if w.lo <= a < w.hi {
      SameSegment(w.lo, a);
    }
  }

  lemma StartAligned(w: Alias)
    requires w.Valid()
    ensures w.Start() % 32 == 0 && (w.Start() + (w.hi - w.lo)) % 32 == 0
  {
    MaskedAligned(w.lo);
    Moved(w.Start(), w.hi, w.lo);
  }

  lemma BlocksApart(x: nat, y: nat)
    requires x % 32 == 0 && y % 32 == 0
    ensures x < y ==> x + 32 <= y
  {
  }

  lemma HomeAligned(w: Alias, t: nat)
    requires w.Valid() && t % 32 == 0
    ensures w.Home(t) % 32 == 0
  {
    MaskedAligned(w.lo);
    Moved(t, w.lo, w.Start());
  }

  /** A 32-byte block between block boundaries is there as a whole or not at all. */
  lemma BlockBetween(start: nat, end: nat, t: nat, i: nat)
    requires start % 32 == 0 && end % 32 == 0 && t % 32 == 0 && i < 32
    ensures start <= t + i < end <==> start <= t < end
    ensures start <= t < end ==> t + 32 <= end
  {
    BlocksApart(t, start);
    BlocksApart(t, end);
  }

  lemma WholeBlock(w: Alias, t: nat, i: nat)
    requires w.Valid() && t % 32 == 0 && i < 32
    ensures w.Holds(t + i) <==> w.Holds(t)
    ensures w.Holds(t) ==> w.Home(t) % 32 == 0 && w.lo <= w.Home(t) && w.Home(t) + 32 <= w.hi
  {
    StartAligned(w);
    HomeAligned(w, t);
    BlockBetween(w.Start(), w.Start() + (w.hi - w.lo), t, i);
  }

  /** Where the masked address of a block at offset off from lo leads. */
  lemma BlockWindow(w: Alias, lo: nat, off: nat)
    requires w.Valid() && lo % 32 == 0 && off % 32 == 0
    ensures var t := Masked(lo) + off;
      && t % 32 == 0 && (lo < WINDOW ==> t == lo + off) && (lo >= WINDOW ==> t + WINDOW <= lo + off)
      && (w.Holds(t) ==> w.Home(t) % 32 == 0 && w.lo <= w.Home(t) && w.Home(t) + 32 <= w.hi)
      && (w.Holds(t) ==> (w.Home(t) == lo + off <==> Base(lo, WINDOW) == Base(w.lo, WINDOW)))
  {
    var t := Masked(lo) + off;
    MaskedAligned(lo);
    Moved(Masked(lo), off, 0);
    WholeBlock(w, t, 0);
  }
}
