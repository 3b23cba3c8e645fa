/** The DMA helpers: a 32-byte CPU head, a DMA middle and a 32-byte CPU tail,
    with the source cleaned from and the destination invalidated in the cache
    around 32-byte-rounded addresses. */
module Dma {
  import opened Bits
  import opened Lines
  import opened CacheRange
  import opened CacheModel
  import opened CachedMachine

  /** An address with its low five bits cleared: the start of its 32-byte block. */
  function Round32(a: nat): (r: nat)
    ensures r <= a < r + 32
  {
    Base(a, 32)
  }

  /** The size the helpers pass on: the difference of two pointers as `int32_t`. */
  function Span(hi: nat, lo: nat): int {
    ToInt32(ToInt32(hi) - ToInt32(lo))
  }

  lemma Round32Value(a: nat)
    requires a < WORD
    ensures And(a, 0xFFFF_FFE0) == Round32(a)
  {
    Mask32(a);
    Base32(a);
  }

  lemma Round32Aligned(a: nat, L: nat)
    requires LineSize(L)
    ensures Aligned(Round32(a), L)
  {
    Base32(a);
    Multiple32(a);
    AlignedTo32(Round32(a), L);
  }

  lemma Multiple32(a: nat)
    ensures (a - a % 32) % 32 == 0
  {
  }

  lemma SpanValue(hi: nat, lo: nat)
    requires lo <= hi < WORD
    ensures Span(hi, lo) == if hi - lo < HALF then hi - lo else hi - lo - WORD
  {
  }

  /** w is v outside [at, at+n). */
  ghost predicate SameOutside(w: seq<Byte>, v: seq<Byte>, at: nat, n: nat) {
    |w| == |v| && forall a :: 0 <= a < |v| && !(at <= a < at + n) ==> w[a] == v[a]
  }

  predicate Disjoint(dst: nat, src: nat, n: nat) {
    dst + n <= src || src + n <= dst
  }

  /** Two disjoint buffers in a 32-bit address space are each at most half of
      it, so the size handed to the maintenance calls never wraps. */
  lemma DisjointFits(dst: nat, src: nat, n: nat)
    requires n > 64 && Disjoint(dst, src, n) && dst + n <= WORD && src + n <= WORD
    ensures 0 < dst + n - 32 - Round32(dst + 32) < HALF
    ensures 0 < src + n - 32 - Round32(src + 32) < HALF
  {
  }

  /** Every line named for the middle of a buffer lies wholly inside the
      buffer, and together they hold every byte the DMA engine touches. */
  lemma MiddleLines(buf: nat, n: nat, L: nat, a: nat)
    requires LineSize(L) && n > 64 && buf + n <= WORD
    ensures var lo := Round32(buf + 32); var size := buf + n - 32 - lo;
      && Aligned(lo, L)
      && (Named(Base(a, L), lo, size) ==> buf < Base(a, L) && Base(a, L) + L <= buf + n)
      && (buf + 32 <= a < buf + n - 32 ==> Named(Base(a, L), lo, size))
  {
    var lo := Round32(buf + 32);
    Round32Aligned(buf + 32, L);
    if lo <= a {
      BaseAbove(a, lo, L);
    }
  }

  /** On such ranges the loops of both cores name exactly the lines that the
      maintenance calls of the machine act on. */
  lemma CallsName803(lo: nat, size: int, cmd: nat, b: nat)
    requires lo % 32 == 0 && 0 < size < HALF && lo + size <= WORD && cmd < 16 && Aligned(b, 16)
    ensures b in Decode803(Words803(lo, size, cmd)) <==> Named(b, lo, size)
  {
    SixteenToo(lo);
    Range803Exact(lo, size, cmd);
    AlignedTo32(lo, 16);
    NamedIsMeets(b, 16, lo, size);
  }

  lemma SixteenToo(lo: nat)
    requires lo % 32 == 0
    ensures lo % 16 == 0
  {
  }

  lemma CallsNameRv32(lo: nat, size: int, b: nat)
    requires lo % 32 == 0 && 0 < size < HALF && lo + size <= WORD && Aligned(b, 32)
    ensures b in Cursor(32, lo, OpSizeRv32(lo, size)) <==> Named(b, lo, size)
  {
    RangeRv32Exact(lo, size);
    AlignedTo32(lo, 32);
    NamedIsMeets(b, 32, lo, size);
  }

  /** Memory agrees with the view wherever the line is not dirty. */
  lemma CleanAgrees(L: nat, mem: seq<Byte>, cache: Cache, a: nat)
    requires Coherent(L, mem, cache) && a < |mem|
    requires Base(a, L) in cache ==> !cache[Base(a, L)].dirty
    ensures mem[a] == Peek(L, mem, cache, a)
  {
    if Base(a, L) in cache {
      assert LineOk(L, mem, Base(a, L), cache[Base(a, L)]);
    }
  }

  /** What cleaning the lines of the source's middle buys. */
  lemma SourceAgrees(L: nat, mem: seq<Byte>, cleaned: Cache, src: nat, n: nat)
    requires Coherent(L, mem, cleaned) && n > 64 && src + n <= |mem|
    requires var lo := Round32(src + 32);
      forall b :: b in cleaned && Named(b, lo, src + n - 32 - lo) ==> !cleaned[b].dirty
    ensures mem[src + 32..src + n - 32] == View(L, mem, cleaned)[src + 32..src + n - 32]
  {
    forall a | src + 32 <= a < src + n - 32
      ensures mem[a] == Peek(L, mem, cleaned, a)
    {
      MiddleLines(src, n, L, a);
      CleanAgrees(L, mem, cleaned, a);
    }
  }

  /** What invalidating the lines of the destination's middle costs. */
  lemma OutsideKept(L: nat, mem: seq<Byte>, before: Cache, after: Cache, dst: nat, n: nat)
    requires Coherent(L, mem, before) && Coherent(L, mem, after) && n > 64 && dst + n <= |mem|
    requires var lo := Round32(dst + 32);
      forall b :: b in after <==> b in before && !Named(b, lo, dst + n - 32 - lo)
    requires forall b :: b in after ==> after[b] == before[b]
    ensures SameOutside(View(L, mem, after), View(L, mem, before), dst, n)
  {
    var lo := Round32(dst + 32);
    forall a | 0 <= a < |mem| && !(dst <= a < dst + n)
      ensures Peek(L, mem, after, a) == Peek(L, mem, before, a)
    {
      MiddleLines(dst, n, L, a);
      DropReveals(L, mem, before, after, a);
    }
  }

  /** The transfer into the middle of the destination, once its lines are out. */
  lemma MiddleReplaced(L: nat, mem: seq<Byte>, cache: Cache, dst: nat, n: nat, data: seq<Byte>)
    requires Coherent(L, mem, cache) && n > 64 && dst + n <= |mem| && |data| == n - 64
    requires var lo := Round32(dst + 32);
      forall b :: b in cache ==> !Named(b, lo, dst + n - 32 - lo)
    ensures Coherent(L, Overwrite(mem, dst + 32, data), cache)
    ensures View(L, Overwrite(mem, dst + 32, data), cache) == Overwrite(View(L, mem, cache), dst + 32, data)
  {
    forall a | dst + 32 <= a < dst + n - 32
      ensures Base(a, L) !in cache
    {
      MiddleLines(dst, n, L, a);
    }
    StoreUncached(L, mem, cache, dst + 32, data);
    UncachedCoherent(L, mem, cache, dst + 32, data);
  }

  /** Cleans the lines of the source's middle. */
  method CleanMiddle(m: Machine, src: nat, n: nat)
    requires m.Valid() && n > 64 && src + n <= |m.mem|
    requires src + n - 32 - Round32(src + 32) < HALF
    modifies m
    ensures m.Valid() && |m.mem| == |old(m.mem)| && m.Cpu() == old(m.Cpu())
    ensures m.mem[src + 32..src + n - 32] == m.Cpu()[src + 32..src + n - 32]
  {
    var line, end := And(src + 32, 0xFFFF_FFE0), src + n - 32;
    Round32Value(src + 32);
    MiddleLines(src, n, m.L, 0);
    SpanValue(end, line);
    m.SysDcacheCleanRange(line, Span(end, line));
    SourceAgrees(m.L, m.mem, m.cache, src, n);
  }

  /** No line of the buffer's middle is cached. */
  ghost predicate MiddleOut(m: Machine, dst: nat, n: nat)
    requires n > 64
    reads m
  {
    var lo := Round32(dst + 32);
    forall b :: b in m.cache ==> !Named(b, lo, dst + n - 32 - lo)
  }

  /** Invalidates the lines of the destination's middle. */
  method InvalidateMiddle(m: Machine, dst: nat, n: nat)
    requires m.Valid() && n > 64 && dst + n <= |m.mem|
    requires dst + n - 32 - Round32(dst + 32) < HALF
    modifies m
    ensures m.Valid() && m.mem == old(m.mem) && MiddleOut(m, dst, n)
    ensures SameOutside(m.Cpu(), old(m.Cpu()), dst, n)
  {
    var line, end := And(dst + 32, 0xFFFF_FFE0), dst + n - 32;
    Round32Value(dst + 32);
    MiddleLines(dst, n, m.L, 0);
    SpanValue(end, line);
    ghost var before := m.cache;
    m.SysDcacheInvalidRange(line, Span(end, line));
    OutsideKept(m.L, m.mem, before, m.cache, dst, n);
  }

  /** The maintenance calls before a transfer, source first. */
  method MaintainMiddle(m: Machine, dst: nat, src: nat, n: nat)
    requires m.Valid() && n > 64
    requires dst + n <= |m.mem| && src + n <= |m.mem| && Disjoint(dst, src, n)
    modifies m
    ensures m.Valid() && |m.mem| == |old(m.mem)| && MiddleOut(m, dst, n)
    ensures m.mem[src + 32..src + n - 32] == old(m.Cpu())[src + 32..src + n - 32]
    ensures SameOutside(m.Cpu(), old(m.Cpu()), dst, n)
  {
    DisjointFits(dst, src, n);
    CleanMiddle(m, src, n);
    InvalidateMiddle(m, dst, n);
  }

  /** The cache and DMA steps shared by the copying helpers, for n > 64: the
      view of the destination's middle becomes the (element-reversed) middle of
      the source, and nothing outside the destination changes. */
  method TransferMiddle(m: Machine, dst: nat, src: nat, n: nat, g: nat)
    requires m.Valid() && n > 64 && Whole(n - 64, g)
    requires dst + n <= |m.mem| && src + n <= |m.mem| && Disjoint(dst, src, n)
    modifies m
    ensures m.Valid() && |m.mem| == |old(m.mem)|
    ensures m.Cpu()[dst + 32..dst + n - 32] == Swapped(old(m.Cpu())[src + 32..src + n - 32], g)
    ensures SameOutside(m.Cpu(), old(m.Cpu()), dst, n)
  {
    MaintainMiddle(m, dst, src, n);
    var d, s, k := dst + 32, src + 32, n - 64;
    assert s + k == src + n - 32 && d + k == dst + n - 32;
    ghost var data := Swapped(m.mem[s..s + k], g);
    assert data == Swapped(old(m.Cpu())[src + 32..src + n - 32], g);
    ghost var dropped := m.Cpu();
    MiddleReplaced(m.L, m.mem, m.cache, dst, n, data);
    m.Transfer(d, s, k, g);
    ghost var after := m.Cpu();
    assert after == Overwrite(dropped, d, data);
    OverwriteSlice(dropped, d, data);
    OverwriteOutside(dropped, d, data, dst, n);
    assert after[d..d + k] == data;
  }

  lemma OverwriteOutside(v: seq<Byte>, d: nat, data: seq<Byte>, dst: nat, n: nat)
    requires d + |data| <= |v| && dst <= d && d + |data| <= dst + n
    ensures SameOutside(Overwrite(v, d, data), v, dst, n)
  {
    forall a | 0 <= a < |v| && !(dst <= a < dst + n)
      ensures Overwrite(v, d, data)[a] == v[a]
    {
      OverwriteAt(v, d, data, a);
    }
  }

  lemma OverwriteSlice(v: seq<Byte>, at: nat, data: seq<Byte>)
    requires at + |data| <= |v|
    ensures Overwrite(v, at, data)[at..at + |data|] == data
  {
  }

  lemma {:induction false} WholeLess(n: nat, k: nat, g: nat)
    requires Whole(n, g) && Whole(k, g) && k <= n
    ensures Whole(n - k, g)
    decreases k
  {
    if k > 0 {
      WholeLess(n - g, k - g, g);
    }
  }

  /** Writing the next byte of data extends what has been overwritten. */
  lemma OverwriteNext(v: seq<Byte>, at: nat, data: seq<Byte>, i: nat)
    requires at + |data| <= |v| && i < |data|
    ensures Overwrite(v, at, data[..i])[at + i := data[i]] == Overwrite(v, at, data[..i + 1])
  {
    var w := Overwrite(v, at, data[..i])[at + i := data[i]];
    forall a | 0 <= a < |v|
      ensures w[a] == Overwrite(v, at, data[..i + 1])[a]
    {
      if at <= a < at + i + 1 {
        assert data[..i + 1][a - at] == data[a - at];
      }
    }
  }

  /** `memcpy` from CPU memory into a local buffer. */
  method CopyOut(m: Machine, buf: array<Byte>, off: nat, src: nat, k: nat)
    requires m.Valid() && src + k <= |m.mem| && off + k <= buf.Length
    modifies m, buf
    ensures m.Valid() && |m.mem| == |old(m.mem)| && m.Cpu() == old(m.Cpu())
    ensures buf[..] == Overwrite(old(buf[..]), off, old(m.Cpu())[src..src + k])
  {
    ghost var data, was := m.Cpu()[src..src + k], buf[..];
    var i := 0;
    while i < k
      invariant i <= k && m.Valid() && |m.mem| == |old(m.mem)| && m.Cpu() == old(m.Cpu())
      invariant buf[..] == Overwrite(was, off, data[..i])
    {
      OverwriteNext(was, off, data, i);
      var v := m.ReadByte(src + i);
      buf[off + i] := v;
      assert buf[..] == Overwrite(was, off, data[..i])[off + i := data[i]];
      i := i + 1;
    }
    assert data[..k] == data;
  }

  /** `memcpy` from a local buffer into CPU memory. */
  method CopyIn(m: Machine, dst: nat, buf: array<Byte>, off: nat, k: nat)
    requires m.Valid() && dst + k <= |m.mem| && off + k <= buf.Length
    modifies m
    ensures m.Valid() && |m.mem| == |old(m.mem)|
    ensures m.Cpu() == Overwrite(old(m.Cpu()), dst, buf[off..off + k])
  {
    ghost var v, data := m.Cpu(), buf[off..off + k];
    var i := 0;
    while i < k
      invariant i <= k && m.Valid() && |m.mem| == |old(m.mem)|
      invariant m.Cpu() == Overwrite(v, dst, data[..i])
    {
      OverwriteNext(v, dst, data, i);
      m.WriteByte(dst + i, buf[off + i]);
      i := i + 1;
    }
    assert data[..k] == data;
  }

  function WithEnds(mid: seq<Byte>, dst: nat, n: nat, head: seq<Byte>, tail: seq<Byte>): (w: seq<Byte>)
    requires n > 64 && dst + n <= |mid| && |head| == |tail| == 32
    ensures |w| == |mid|
  {
    Overwrite(Overwrite(mid, dst, head), dst + n - 32, tail)
  }

  /** A middle in place and a head and tail written over it make up the whole. */
  lemma Assembled(v: seq<Byte>, mid: seq<Byte>, dst: nat, n: nat, h: seq<Byte>, k: seq<Byte>, t: seq<Byte>)
    requires |h| == |t| == 32 && n == 64 + |k| > 64 && dst + n <= |v|
    requires SameOutside(mid, v, dst, n) && mid[dst + 32..dst + n - 32] == k
    ensures WithEnds(mid, dst, n, h, t) == Overwrite(v, dst, h + k + t)
  {
    var w, data := WithEnds(mid, dst, n, h, t), h + k + t;
    forall i | 0 <= i < |data|
      ensures w[dst + i] == data[i]
    {
      AssembledAt(mid, dst, n, h, k, t, i);
    }
    forall a | 0 <= a < |v|
      ensures w[a] == Overwrite(v, dst, data)[a]
    {
      if dst <= a < dst + |data| {
        assert w[dst + (a - dst)] == data[a - dst];
      }
    }
  }

  lemma AssembledAt(mid: seq<Byte>, dst: nat, n: nat, h: seq<Byte>, k: seq<Byte>, t: seq<Byte>, i: nat)
    requires |h| == |t| == 32 && n == 64 + |k| > 64 && dst + n <= |mid| && i < n
    requires mid[dst + 32..dst + n - 32] == k
    ensures WithEnds(mid, dst, n, h, t)[dst + i] == (h + k + t)[i]
  {
    var inner, d2 := Overwrite(mid, dst, h), dst + n - 32;
    var w := Overwrite(inner, d2, t);
    if n - 32 <= i {
      var j := i - (n - 32);
      assert w[d2 + j] == t[j];
    } else {
      assert w[dst + i] == inner[dst + i];
      if 32 <= i {
        var j := i - 32;
        assert mid[dst + 32..d2][j] == k[j];
      }
    }
  }

  /** The 32-byte ends held in the buffer go back around a finished middle. */
  method WriteEnds(m: Machine, dst: nat, n: nat, buf: array<Byte>)
    requires m.Valid() && n > 64 && dst + n <= |m.mem| && buf.Length == 64
    modifies m
    ensures m.Valid() && |m.mem| == |old(m.mem)|
    ensures m.Cpu() == WithEnds(old(m.Cpu()), dst, n, buf[0..32], buf[32..64])
  {
    ghost var mid, head, tail := m.Cpu(), buf[0..32], buf[32..64];
    var d2 := dst + n - 32;
    CopyIn(m, dst, buf, 0, 32);
    assert m.Cpu() == Overwrite(mid, dst, head);
    CopyIn(m, d2, buf, 32, 32);
    assert m.Cpu() == Overwrite(Overwrite(mid, dst, head), d2, tail);
  }

  lemma {:induction false} WholeBytes(n: nat)
    ensures Whole(n, 1)
  {
    if n > 0 {
      WholeBytes(n - 1);
    }
  }

  lemma {:induction false} SwappedBytes(data: seq<Byte>)
    ensures Whole(|data|, 1) && Swapped(data, 1) == data
  {
    WholeBytes(|data|);
    if data != [] {
      SwappedBytes(data[1..]);
      assert Reversed(data[..1]) == [data[0]];
    }
  }

  method CopyByte(m: Machine, dst: nat, src: nat)
    requires m.Valid() && dst < |m.mem| && src < |m.mem|
    modifies m
    ensures m.Valid() && |m.mem| == |old(m.mem)|
    ensures m.Cpu() == old(m.Cpu())[dst := old(m.Cpu())[src]]
  {
    var v := m.ReadByte(src);
    m.WriteByte(dst, v);
  }

  /** The next byte of a disjoint source is still the original one. */
  lemma CopyNext(v: seq<Byte>, dst: nat, src: nat, data: seq<Byte>, i: nat, w: seq<Byte>, d: nat, s: nat)
    requires dst + |data| <= |v| && src + |data| <= |v| && data == v[src..src + |data|]
    requires Disjoint(dst, src, |data|) && i < |data|
    requires w == Overwrite(v, dst, data[..i]) && d == dst + i && s == src + i
    ensures w[d := w[s]] == Overwrite(v, dst, data[..i + 1])
  {
    OverwriteNext(v, dst, data, i);
    assert w[s] == data[i];
  }

  /** The byte loop for short copies. */
  method CopySmall(m: Machine, dst: nat, src: nat, n: nat)
    requires m.Valid() && dst + n <= |m.mem| && src + n <= |m.mem| && Disjoint(dst, src, n)
    modifies m
    ensures m.Valid() && |m.mem| == |old(m.mem)|
    ensures m.Cpu() == Overwrite(old(m.Cpu()), dst, old(m.Cpu())[src..src + n])
  {
    ghost var v := m.Cpu();
    ghost var data := v[src..src + n];
    var i := 0;
    while i < n
      invariant i <= n && m.Valid() && |m.mem| == |old(m.mem)|
      invariant m.Cpu() == Overwrite(v, dst, data[..i])
    {
      ghost var w := m.Cpu();
      var d, s := dst + i, src + i;
      CopyNext(v, dst, src, data, i, w, d, s);
      CopyByte(m, d, s);
      assert m.Cpu() == w[d := w[s]];
      i := i + 1;
    }
    assert data[..n] == data;
  }

  /** Reads the two 32-byte ends of a buffer. */
  method ReadEnds(m: Machine, src: nat, n: nat) returns (buf: array<Byte>)
    requires m.Valid() && n > 64 && src + n <= |m.mem|
    modifies m
    ensures m.Valid() && |m.mem| == |old(m.mem)| && m.Cpu() == old(m.Cpu())
    ensures fresh(buf) && buf.Length == 64
    ensures buf[0..32] == m.Cpu()[src..src + 32]
    ensures buf[32..64] == m.Cpu()[src + n - 32..src + n]
  {
    buf := new Byte[64](_ => 0);
    CopyOut(m, buf, 0, src, 32);
    CopyOut(m, buf, 32, src + n - 32, 32);
  }

  /** `dma_memcpy`: whatever is cached, dirty or not, and whatever the alignment
      and length, what the CPU sees afterwards is a plain copy. */
  method DmaMemcpy(m: Machine, dst: nat, src: nat, n: nat)
    requires m.Valid() && dst + n <= |m.mem| && src + n <= |m.mem| && Disjoint(dst, src, n)
    modifies m
    ensures m.Valid() && |m.mem| == |old(m.mem)|
    ensures m.Cpu() == Overwrite(old(m.Cpu()), dst, old(m.Cpu())[src..src + n])
  {
    if n <= 64 {
      CopySmall(m, dst, src, n);
      return;
    }
    ghost var v := m.Cpu();
    ghost var h, k, t := v[src..src + 32], v[src + 32..src + n - 32], v[src + n - 32..src + n];
    var buf := ReadEnds(m, src, n);
    WholeBytes(n - 64);
    TransferMiddle(m, dst, src, n, 1);
    SwappedBytes(k);
    ghost var mid := m.Cpu();
    Assembled(v, mid, dst, n, h, k, t);
    Parts(v, src, n);
    WriteEnds(m, dst, n, buf);
    assert m.Cpu() == WithEnds(mid, dst, n, h, t);
  }

  /** A buffer is its two ends and its middle. */
  lemma Parts(v: seq<Byte>, src: nat, n: nat)
    requires n > 64 && src + n <= |v|
    ensures v[src..src + 32] + v[src + 32..src + n - 32] + v[src + n - 32..src + n] == v[src..src + n]
  {
  }

  lemma SliceOfSlice(v: seq<Byte>, src: nat, n: nat, lo: nat, hi: nat)
    requires lo <= hi <= n && src + n <= |v|
    ensures v[src..src + n][lo..hi] == v[src + lo..src + hi]
  {
    var a, b := v[src..src + n][lo..hi], v[src + lo..src + hi];
    forall i | 0 <= i < hi - lo
      ensures a[i] == b[i]
    {
      assert v[src..src + n][lo + i] == v[src + lo + i];
    }
    assert |a| == |b|;
  }
}
