/** `dma_memset_word` and `dma_memset`: a CPU head and tail written byte by
    byte around a middle that the DMA engine fills from a recycled word. */
module DmaFill {
  import opened Bits
  import opened Lines
  import opened CacheModel
  import opened CachedMachine
  import opened Dma

  /** The size passed to the invalidation fits its signed parameter. */
  predicate Fits(dst: nat, n: nat) {
    n <= 64 || n - 64 + dst % 32 < HALF
  }

  lemma SamePhase(c: nat, i: nat, a: nat)
    requires i % 4 == a % 4
    ensures WordByte(c, i) == WordByte(c, a)
  {
  }

  /** One turn of the byte loop, whose index i keeps the phase of the address d. */
  lemma FillNext(v: seq<Byte>, dst: nat, c: nat, data: seq<Byte>, i: nat, d: nat, k: nat, w: seq<Byte>)
    requires data == Recycled(c, dst, |data|) && dst + |data| <= |v| && k < |data|
    requires d == dst + k && i == dst % 4 + k && w == Overwrite(v, dst, data[..k])
    ensures w[d := WordByte(c, i % 4)] == Overwrite(v, dst, data[..k + 1])
  {
    OverwriteNext(v, dst, data, k);
    PhaseKept(dst, i, d);
    SamePhase(c, i % 4, d);
    assert data[k] == WordByte(c, i % 4);
  }

  lemma PhaseKept(dst: nat, i: nat, d: nat)
    requires i - dst % 4 == d - dst
    ensures i % 4 % 4 == d % 4
  {
  }

  /** The byte loop: byte (a mod 4) of the word at every address a. */
  method FillBytes(m: Machine, dst: nat, c: nat, n: nat)
    requires m.Sane() && dst + n <= |m.mem|
    modifies m
    ensures m.Sane() && |m.mem| == |old(m.mem)|
    ensures old(m.Valid()) ==> m.Valid() && m.Cpu() == Overwrite(old(m.Cpu()), dst, Recycled(c, dst, n))
  {
    ghost var v, data, k := m.Cpu(), Recycled(c, dst, n), 0;
    ghost var valid := m.Valid();
    var i := dst % 4;
    var size := i + n;
    var d := dst;
    while i < size
      invariant k <= n && d == dst + k && i == dst % 4 + k
      invariant m.Sane() && |m.mem| == |v|
      invariant valid ==> m.Valid() && m.Cpu() == Overwrite(v, dst, data[..k])
    {
      ghost var w := m.Cpu();
      if valid {
        FillNext(v, dst, c, data, i, d, k, w);
      }
      var b := WordByte(c, i % 4);
      m.WriteByte(d, b);
      assert valid ==> m.Cpu() == w[d := b];
      d := d + 1;
      i := i + 1;
      k := k + 1;
    }
    assert data[..n] == data;
  }

  /** What the CPU sees of the filled buffer: for n > 64 the middle follows the
      engine's phase, the rest follows the address. */
  function Filled(c: nat, dst: nat, n: nat, phase: nat): (s: seq<Byte>)
    ensures |s| == n
  {
    if n <= 64 then Recycled(c, dst, n)
    else Recycled(c, dst, 32) + Recycled(c, phase, n - 64) + Recycled(c, dst + n - 32, 32)
  }

  /** Memory and cache once the middle's lines have been invalidated, with the
      size as it is passed on, and the engine has written data there. */
  ghost function Transferred(s: State, dst: nat, n: nat, data: seq<Byte>): State
    requires n > 64 && dst + n <= |s.mem| <= WORD && |data| == n - 64
  {
    var lo := Round32(dst + 32);
    State(Overwrite(s.mem, dst + 32, data), Left(s.cache, lo, Span(dst + n - 32, lo)))
  }

  lemma TransferPlaced(L: nat, s: State, dst: nat, n: nat, data: seq<Byte>)
    requires Placed(L, s.mem, s.cache) && n > 64 && dst + n <= |s.mem| && |data| == n - 64
    ensures var t := Transferred(s, dst, n, data); Placed(L, t.mem, t.cache)
  {
    var lo := Round32(dst + 32);
    var size := Span(dst + n - 32, lo);
    LeftPlaced(L, s.mem, s.cache, lo, size);
    StorePlaced(L, s.mem, Left(s.cache, lo, size), dst + 32, data);
  }

  /** Where the size fits, the CPU sees the data in the middle and nothing new
      outside the buffer. */
  lemma TransferSeen(L: nat, s: State, dst: nat, n: nat, data: seq<Byte>)
    requires Coherent(L, s.mem, s.cache) && n > 64 && dst + n <= |s.mem| && |data| == n - 64 && Fits(dst, n)
    ensures var t := Transferred(s, dst, n, data);
      && Coherent(L, t.mem, t.cache) && View(L, t.mem, t.cache)[dst + 32..dst + n - 32] == data
      && SameOutside(View(L, t.mem, t.cache), View(L, s.mem, s.cache), dst, n)
  {
    var lo := Round32(dst + 32);
    var left := Left(s.cache, lo, Span(dst + n - 32, lo));
    SpanFits(dst, n);
    LeftPlaced(L, s.mem, s.cache, lo, Span(dst + n - 32, lo));
    OutsideKept(L, s.mem, s.cache, left, dst, n);
    MiddleReplaced(L, s.mem, left, dst, n, data);
    OverwriteSlice(View(L, s.mem, left), dst + 32, data);
    OverwriteOutside(View(L, s.mem, left), dst + 32, data, dst, n);
  }

  /** What the CPU sees in the end, from a coherent state of the transfer. */
  ghost function FilledView(L: nat, s: State, dst: nat, c: nat, n: nat, phase: nat): seq<Byte>
    requires Placed(L, s.mem, s.cache) && dst + n <= |s.mem|
  {
    if n <= 64 then Overwrite(View(L, s.mem, s.cache), dst, Recycled(c, dst, n))
    else
      TransferPlaced(L, s, dst, n, Recycled(c, phase, n - 64));
      var t := Transferred(s, dst, n, Recycled(c, phase, n - 64));
      WithEnds(View(L, t.mem, t.cache), dst, n, Recycled(c, dst, 32), Recycled(c, dst + n - 32, 32))
  }

  /** The transfer leaves no clean line that memory has gone past. */
  ghost predicate StaysCoherent(L: nat, s: State, dst: nat, c: nat, n: nat, phase: nat)
    requires dst + n <= |s.mem| <= WORD
  {
    n <= 64 || var t := Transferred(s, dst, n, Recycled(c, phase, n - 64)); Coherent(L, t.mem, t.cache)
  }

  lemma FilledFits(L: nat, s: State, dst: nat, c: nat, n: nat, phase: nat)
    requires Coherent(L, s.mem, s.cache) && dst + n <= |s.mem| && Fits(dst, n)
    ensures StaysCoherent(L, s, dst, c, n, phase)
    ensures FilledView(L, s, dst, c, n, phase) == Overwrite(View(L, s.mem, s.cache), dst, Filled(c, dst, n, phase))
  {
    if n > 64 {
      var data := Recycled(c, phase, n - 64);
      var t := Transferred(s, dst, n, data);
      TransferSeen(L, s, dst, n, data);
      Assembled(View(L, s.mem, s.cache), View(L, t.mem, t.cache), dst, n,
                Recycled(c, dst, 32), data, Recycled(c, dst + n - 32, 32));
    }
  }

  /** The invalidation and the transfer of the long path. */
  method FillMiddle(m: Machine, dst: nat, c: nat, n: nat, phase: nat)
    requires m.Sane() && n > 64 && dst + n <= |m.mem|
    modifies m
    ensures m.Sane() && |m.mem| == |old(m.mem)|
    ensures State(m.mem, m.cache) == Transferred(State(old(m.mem), old(m.cache)), dst, n, Recycled(c, phase, n - 64))
  {
    var d, d2 := dst + 32, dst + n - 32;
    var line := And(d, 0xFFFF_FFE0);
    Round32Value(d);
    MiddleLines(dst, n, m.L, 0);
    SpanValue(d2, line);
    TransferPlaced(m.L, State(m.mem, m.cache), dst, n, Recycled(c, phase, n - 64));
    m.SysDcacheInvalidRange(line, Span(d2, line));
    assert m.cache == Left(old(m.cache), line, Span(d2, line));
    m.TransferRecycle(d, c, n - 64, phase);
  }

  /** The head and the tail. */
  method FillEnds(m: Machine, dst: nat, c: nat, n: nat)
    requires m.Sane() && n > 64 && dst + n <= |m.mem|
    modifies m
    ensures m.Sane() && |m.mem| == |old(m.mem)|
    ensures old(m.Valid()) ==>
              m.Valid() && m.Cpu() == WithEnds(old(m.Cpu()), dst, n, Recycled(c, dst, 32), Recycled(c, dst + n - 32, 32))
  {
    var d2 := dst + n - 32;
    ghost var mid, valid := m.Cpu(), m.Valid();
    FillBytes(m, dst, c, 32);
    assert valid ==> m.Cpu() == Overwrite(mid, dst, Recycled(c, dst, 32));
    FillBytes(m, d2, c, 32);
  }

  /** `dma_memset_word`, for an engine that starts recycling at byte phase: where
      the size fits, the buffer is filled whatever is cached; in general the CPU
      sees the ends filled and, between, memory or what is still cached over it. */
  method DmaMemsetWord(m: Machine, dst: nat, c: nat, n: nat, phase: nat)
    requires m.Valid() && dst + n <= |m.mem|
    modifies m
    ensures m.Sane() && |m.mem| == |old(m.mem)|
    ensures StaysCoherent(m.L, State(old(m.mem), old(m.cache)), dst, c, n, phase) ==>
              m.Valid() && m.Cpu() == FilledView(m.L, State(old(m.mem), old(m.cache)), dst, c, n, phase)
    ensures Fits(dst, n) ==>
              m.Valid() && m.Cpu() == Overwrite(old(m.Cpu()), dst, Filled(c, dst, n, phase))
  {
    if Fits(dst, n) {
      FilledFits(m.L, State(m.mem, m.cache), dst, c, n, phase);
    }
    if n <= 64 {
      FillBytes(m, dst, c, n);
    } else {
      FillMiddle(m, dst, c, n, phase);
      FillEnds(m, dst, c, n);
    }
  }

  /** The pieces join for every word exactly when the engine's phase agrees
      with the address, or there is no middle. */
  lemma PiecesJoin(dst: nat, n: nat, phase: nat)
    ensures (forall c: nat :: Filled(c, dst, n, phase) == Recycled(c, dst, n))
       <==> n <= 64 || phase % 4 == dst % 4
  {
    if n > 64 && phase % 4 == dst % 4 {
      forall c: nat
        ensures Filled(c, dst, n, phase) == Recycled(c, dst, n)
      {
        PiecesJoinFor(c, dst, n, phase);
      }
    } else if n > 64 {
      var c := 0x0302_0100;
      assert Filled(c, dst, n, phase)[32] == WordByte(c, phase) == phase % 4;
      assert Recycled(c, dst, n)[32] == WordByte(c, dst + 32) == dst % 4;
    }
  }

  lemma FilledAt(c: nat, dst: nat, n: nat, phase: nat, i: nat)
    requires n > 64 && i < n
    ensures Filled(c, dst, n, phase)[i]
         == WordByte(c, if 32 <= i < n - 32 then phase + (i - 32) else dst + i)
  {
    var head, mid, tail := Recycled(c, dst, 32), Recycled(c, phase, n - 64), Recycled(c, dst + n - 32, 32);
    if i < 32 {
      assert Filled(c, dst, n, phase)[i] == head[i];
    } else if i < n - 32 {
      assert Filled(c, dst, n, phase)[i] == mid[i - 32];
    } else {
      assert Filled(c, dst, n, phase)[i] == tail[i - (n - 32)];
      assert dst + n - 32 + (i - (n - 32)) == dst + i;
    }
  }

  lemma PiecesJoinFor(c: nat, dst: nat, n: nat, phase: nat)
    requires n > 64 && phase % 4 == dst % 4
    ensures Filled(c, dst, n, phase) == Recycled(c, dst, n)
  {
    forall i | 0 <= i < n
      ensures Filled(c, dst, n, phase)[i] == Recycled(c, dst, n)[i]
    {
      FilledAt(c, dst, n, phase, i);
      if 32 <= i < n - 32 {
        ShiftedPhase(phase, dst + 32, i - 32);
        SamePhase(c, phase + (i - 32), dst + 32 + (i - 32));
      }
    }
  }

  lemma ShiftedPhase(p: nat, q: nat, j: nat)
    requires p % 4 == q % 4
    ensures (p + j) % 4 == (q + j) % 4
  {
  }

  /** The word `c | c<<8 | c<<16 | c<<24`. */
  function Splat(c: Byte): (w: nat) {
    Or(Or(Or(c, c * 0x100), c * 0x1_0000), c * 0x100_0000)
  }

  lemma SplatValue(c: Byte)
    ensures Splat(c) == Word32(c, c, c, c)
  {
    Pow2Values();
    OrShifted(c, c, 8, c * 0x100);
    OrShifted(c + c * 0x100, c, 16, c * 0x1_0000);
    OrShifted(c + c * 0x100 + c * 0x1_0000, c, 24, c * 0x100_0000);
  }

  lemma SplatBytes(c: Byte, k: nat)
    ensures WordByte(Splat(c), k) == c
  {
    SplatValue(c);
    WordBytes(c, c, c, c);
    SamePhase(Splat(c), k, k % 4);
  }

  /** Filled from a splatted byte is that byte throughout, in any phase. */
  lemma FilledSplat(c: Byte, dst: nat, n: nat, phase: nat)
    ensures Filled(Splat(c), dst, n, phase) == seq(n, _ => c)
  {
    forall i | 0 <= i < n
      ensures Filled(Splat(c), dst, n, phase)[i] == c
    {
      if n > 64 {
        FilledAt(Splat(c), dst, n, phase, i);
        SplatBytes(c, if 32 <= i < n - 32 then phase + (i - 32) else dst + i);
      } else {
        SplatBytes(c, dst + i);
      }
    }
  }

  /** `dma_memset`: where the size fits, every byte is c, whatever is cached and
      whatever phase the engine recycles with. */
  method DmaMemset(m: Machine, dst: nat, c: Byte, n: nat, phase: nat)
    requires m.Valid() && dst + n <= |m.mem|
    modifies m
    ensures m.Sane() && |m.mem| == |old(m.mem)|
    ensures StaysCoherent(m.L, State(old(m.mem), old(m.cache)), dst, Splat(c), n, phase) ==>
              m.Valid() && m.Cpu() == FilledView(m.L, State(old(m.mem), old(m.cache)), dst, Splat(c), n, phase)
    ensures Fits(dst, n) ==> m.Valid() && m.Cpu() == Overwrite(old(m.Cpu()), dst, seq(n, _ => c))
  {
    FilledSplat(c, dst, n, phase);
    DmaMemsetWord(m, dst, Splat(c), n, phase);
  }

  /** From this state `dma_memset` fills the buffer with c. */
  ghost predicate FillsWith(L: nat, s: State, dst: nat, c: Byte, n: nat, phase: nat)
    requires Placed(L, s.mem, s.cache) && dst + n <= |s.mem|
  {
    && StaysCoherent(L, s, dst, Splat(c), n, phase)
    && FilledView(L, s, dst, Splat(c), n, phase) == Overwrite(View(L, s.mem, s.cache), dst, seq(n, _ => c))
  }

  /** `dma_memset` fills with c from every coherent state exactly when the size fits. */
  lemma FillsExactly(L: nat, size: nat, dst: nat, c: Byte, n: nat, phase: nat)
    requires LineSize(L) && size % 32 == 0 && dst + n <= size <= WORD
    ensures (forall s: State :: Coherent(L, s.mem, s.cache) && |s.mem| == size ==> FillsWith(L, s, dst, c, n, phase))
       <==> Fits(dst, n)
  {
    if Fits(dst, n) {
      forall s: State | Coherent(L, s.mem, s.cache) && |s.mem| == size
        ensures FillsWith(L, s, dst, c, n, phase)
      {
        FilledFits(L, s, dst, Splat(c), n, phase);
        FilledSplat(c, dst, n, phase);
      }
    } else {
      var s := StaleSeen(L, size, dst, c, n, phase);
      NotFilled(L, s, dst, c, n, phase, dst + 64);
    }
  }

  /** One cached line, dirty and the same throughout: it shows over any memory. */
  ghost function DirtyLine(L: nat, a: nat, x: Byte): Cache
    requires L > 0
  {
    map[Base(a, L) := Line(seq<Byte>(L, _ => x), true)]
  }

  lemma DirtyShows(L: nat, mem: seq<Byte>, a: nat, x: Byte)
    requires LineSize(L) && |mem| % 32 == 0 && |mem| <= WORD && a < |mem|
    ensures var cache := DirtyLine(L, a, x);
      Coherent(L, mem, cache) && Placed(L, mem, cache) && View(L, mem, cache)[a] == x
  {
    BaseAligned(a, L);
    LineInMemory(L, mem, map[], a);
    OneDirty(L, mem, Base(a, L), Line(seq<Byte>(L, _ => x), true));
  }

  /** A dirty line of the middle that the invalidation, its size wrapped, does
      not name: the CPU goes on seeing it over what the engine has written. */
  lemma StaleSeen(L: nat, size: nat, dst: nat, c: Byte, n: nat, phase: nat) returns (s: State)
    requires LineSize(L) && size % 32 == 0 && dst + n <= size <= WORD && !Fits(dst, n)
    ensures Coherent(L, s.mem, s.cache) && |s.mem| == size
    ensures StaysCoherent(L, s, dst, Splat(c), n, phase)
    ensures FilledView(L, s, dst, Splat(c), n, phase)[dst + 64] == View(L, s.mem, s.cache)[dst + 64] != c
  {
    var a, x: Byte := dst + 64, if c == 0 then 1 else 0;
    s := State(seq<Byte>(size, _ => 0), DirtyLine(L, a, x));
    DirtyShows(L, s.mem, a, x);
    var t := Transferred(s, dst, n, Recycled(Splat(c), phase, n - 64));
    StaleTransfer(s, dst, n, Recycled(Splat(c), phase, n - 64));
    DirtyShows(L, t.mem, a, x);
    MiddleSeen(L, s, dst, Splat(c), n, phase, a);
  }

  /** Between the ends the CPU sees what it saw after the transfer. */
  lemma MiddleSeen(L: nat, s: State, dst: nat, c: nat, n: nat, phase: nat, a: nat)
    requires Placed(L, s.mem, s.cache) && n > 64 && dst + n <= |s.mem| && dst + 32 <= a < dst + n - 32
    ensures var t := Transferred(s, dst, n, Recycled(c, phase, n - 64));
      Placed(L, t.mem, t.cache) && FilledView(L, s, dst, c, n, phase)[a] == View(L, t.mem, t.cache)[a]
  {
    var t := Transferred(s, dst, n, Recycled(c, phase, n - 64));
    TransferPlaced(L, s, dst, n, Recycled(c, phase, n - 64));
    EndsApart(View(L, t.mem, t.cache), dst, n, Recycled(c, dst, 32), Recycled(c, dst + n - 32, 32), a);
  }

  lemma NotFilled(L: nat, s: State, dst: nat, c: Byte, n: nat, phase: nat, a: nat)
    requires Placed(L, s.mem, s.cache) && dst + n <= |s.mem| && dst <= a < dst + n
    requires FilledView(L, s, dst, Splat(c), n, phase)[a] != c
    ensures !FillsWith(L, s, dst, c, n, phase)
  {
    OverwriteAt(View(L, s.mem, s.cache), dst, seq<Byte>(n, _ => c), a);
  }

  lemma StaleTransfer(s: State, dst: nat, n: nat, data: seq<Byte>)
    requires n > 64 && dst + n <= |s.mem| <= WORD && |data| == n - 64 && !Fits(dst, n)
    ensures Transferred(s, dst, n, data).cache == s.cache
  {
    SpanFits(dst, n);
  }

  lemma EndsApart(mid: seq<Byte>, dst: nat, n: nat, head: seq<Byte>, tail: seq<Byte>, a: nat)
    requires n > 64 && dst + n <= |mid| && |head| == |tail| == 32 && dst + 32 <= a < dst + n - 32
    ensures WithEnds(mid, dst, n, head, tail)[a] == mid[a]
  {
    OverwriteAt(Overwrite(mid, dst, head), dst + n - 32, tail, a);
    OverwriteAt(mid, dst, head, a);
  }

  /** Every byte of the buffer's middle is on a line named for [lo, lo+size). */
  ghost predicate MiddleNamed(dst: nat, n: nat, L: nat, lo: nat, size: int)
    requires L > 0
  {
    forall a: nat :: dst + 32 <= a < dst + n - 32 ==> Named(Base(a, L), lo, size)
  }

  /** The invalidation before the transfer covers the bytes the engine writes
      exactly when the size fits; past that it wraps and names no line. */
  lemma InvalidationCovers(dst: nat, n: nat, L: nat)
    requires LineSize(L) && n > 64 && dst + n <= WORD
    ensures var lo := Round32(dst + 32);
      MiddleNamed(dst, n, L, lo, Span(dst + n - 32, lo)) <==> Fits(dst, n)
  {
    var lo := Round32(dst + 32);
    var size := Span(dst + n - 32, lo);
    SpanFits(dst, n);
    if Fits(dst, n) {
      AllNamed(dst, n, L, lo, size);
    } else {
      NoneNamed(dst, n, L, lo, size);
    }
  }

  lemma SpanFits(dst: nat, n: nat)
    requires n > 64 && dst + n <= WORD
    ensures var lo := Round32(dst + 32); var size := Span(dst + n - 32, lo);
      if Fits(dst, n) then size == dst + n - 32 - lo else size < 0
  {
    Base32(dst);
    assert Round32(dst + 32) == 32 + Base(dst, 32);
    SpanValue(dst + n - 32, Round32(dst + 32));
  }

  lemma AllNamed(dst: nat, n: nat, L: nat, lo: nat, size: int)
    requires LineSize(L) && n > 64 && dst + n <= WORD
    requires lo == Round32(dst + 32) && size == dst + n - 32 - lo
    ensures MiddleNamed(dst, n, L, lo, size)
  {
    forall a: nat | dst + 32 <= a < dst + n - 32
      ensures Named(Base(a, L), lo, size)
    {
      MiddleLines(dst, n, L, a);
    }
  }

  lemma NoneNamed(dst: nat, n: nat, L: nat, lo: nat, size: int)
    requires L > 0 && n > 64 && size < 0
    ensures !MiddleNamed(dst, n, L, lo, size)
  {
    var a := dst + 32;
    assert !Named(Base(a, L), lo, size);
  }
}
