/** A machine with a write-back data cache and a DMA engine: the CPU accesses,
    cache maintenance calls and transfers that the DMA helpers are made of. */
module CachedMachine {
  import opened Lines
  import opened CacheModel

  /** n bytes make whole elements of g bytes, counted off one by one. */
  predicate Whole(n: nat, g: nat)
  {
    g > 0 && (n == 0 || (n >= g && Whole(n - g, g)))
  }

  function Reversed(e: seq<Byte>): (r: seq<Byte>)
    ensures |r| == |e|
  {
    if e == [] then [] else Reversed(e[1..]) + [e[0]]
  }

  /** The bytes of data with each element of g bytes reversed in place. */
  function Swapped(data: seq<Byte>, g: nat): (s: seq<Byte>)
    requires Whole(|data|, g)
    ensures |s| == |data|
  {
    if data == [] then [] else Reversed(data[..g]) + Swapped(data[g..], g)
  }

  /** Byte k (mod 4) of a little-endian 32-bit word. */
  function WordByte(w: nat, k: nat): Byte {
    if k % 4 == 0 then w % 0x100
    else if k % 4 == 1 then w / 0x100 % 0x100
    else if k % 4 == 2 then w / 0x100 / 0x100 % 0x100
    else w / 0x100 / 0x100 / 0x100 % 0x100
  }

  /** That is the word shifted right by eight bits for each place, cut to a byte. */
  lemma WordByteValue(w: nat, k: nat)
    ensures WordByte(w, k)
         == if k % 4 == 0 then w % 256 else if k % 4 == 1 then w / 256 % 256
            else if k % 4 == 2 then w / 65536 % 256 else w / 16777216 % 256
  {
    DivTwice(w);
    DivTwice(w / 0x100);
    DivThrice(w);
  }

  lemma DivTwice(w: nat)
    ensures w / 0x100 / 0x100 == w / 65536
  {
  }

  lemma DivThrice(w: nat)
    ensures w / 65536 / 0x100 == w / 16777216
  {
  }

  /** The little-endian word of four bytes. */
  function Word32(b0: Byte, b1: Byte, b2: Byte, b3: Byte): nat {
    b0 + 0x100 * (b1 + 0x100 * (b2 + 0x100 * b3))
  }

  lemma WordBytes(b0: Byte, b1: Byte, b2: Byte, b3: Byte)
    ensures var w := Word32(b0, b1, b2, b3);
      WordByte(w, 0) == b0 && WordByte(w, 1) == b1 && WordByte(w, 2) == b2 && WordByte(w, 3) == b3
  {
    var h2 := b2 + 0x100 * b3;
    var h1 := b1 + 0x100 * h2;
    assert Word32(b0, b1, b2, b3) / 0x100 == h1;
    assert h1 / 0x100 == h2;
    assert h2 / 0x100 == b3;
  }

  /** n bytes of the word repeated, from byte number phase on. */
  function Recycled(w: nat, phase: nat, n: nat): (s: seq<Byte>)
    ensures |s| == n
    ensures forall i :: 0 <= i < n ==> s[i] == WordByte(w, phase + i)
  {
    seq<Byte>(n, i requires 0 <= i < n => WordByte(w, phase + i))
  }

  /** Line b is one of those that a maintenance call on [addr, addr+dsize) names. */
  predicate Named(b: nat, addr: nat, dsize: int) {
    addr <= b < addr + dsize
  }

  /** The lines that an invalidation of [lo, lo+size) leaves. */
  ghost function Left(cache: Cache, lo: nat, size: int): Cache {
    map b | b in cache && !Named(b, lo, size) :: cache[b]
  }

  lemma LeftPlaced(L: nat, mem: seq<Byte>, cache: Cache, lo: nat, size: int)
    requires Placed(L, mem, cache)
    ensures Placed(L, mem, Left(cache, lo, size))
    ensures Coherent(L, mem, cache) ==> Coherent(L, mem, Left(cache, lo, size))
  {
    forall b | b in Left(cache, lo, size)
      ensures LinePlaced(L, mem, b, cache[b]) && (Coherent(L, mem, cache) ==> LineOk(L, mem, b, cache[b]))
    {
      assert LinePlaced(L, mem, b, cache[b]);
      assert Coherent(L, mem, cache) ==> LineOk(L, mem, b, cache[b]);
    }
  }

  class Machine {
    const L: nat
    const quiet: bool  // there is room for every line: none is evicted or filled unasked
    var mem: seq<Byte>
    var cache: Cache

    /** Lines lie in memory. */
    ghost predicate Sane()
      reads this
    {
      Placed(L, mem, cache)
    }

    /** And only dirty ones differ from it. */
    ghost predicate Valid()
      reads this
    {
      Coherent(L, mem, cache)
    }

    /** Memory as the CPU sees it. */
    ghost function Cpu(): (v: seq<Byte>)
      requires Sane()
      reads this
      ensures |v| == |mem|
    {
      View(L, mem, cache)
    }

    /** Memory already agrees with what the CPU sees at a. */
    ghost predicate Settled(a: nat)
      requires Sane()
      reads this
    {
      a < |mem| && mem[a] == Cpu()[a]
    }

    /** Line b leaves the cache, written back first if dirty. */
    method Evict(b: nat)
      requires Sane() && b in cache
      modifies this
      ensures Sane() && |mem| == |old(mem)|
      ensures old(Valid()) ==> Valid() && Cpu() == old(Cpu())
      ensures old(Valid()) ==> forall x: nat :: old(Settled(x)) ==> Settled(x)
      ensures cache.Keys == old(cache).Keys - {b}
    {
      CleanLine(b);
      if Valid() {
        DropClean(L, mem, cache, b);
      }
      DropPlaced(L, mem, cache, b);
      cache := cache - {b};
    }

    /** Line b enters the cache from memory. */
    method Fill(b: nat)
      requires Sane() && Aligned(b, L) && b + L <= |mem|
      modifies this`cache
      ensures Sane()
      ensures old(Valid()) ==> Valid() && Cpu() == old(Cpu())
      ensures old(Valid()) ==> forall x: nat :: old(Settled(x)) ==> Settled(x)
    {
      if b !in cache {
        if Valid() {
          FillInvisible(L, mem, cache, b);
        }
        cache := cache[b := Line(mem[b..b + L], false)];
      }
    }

    /** Before a CPU access to a, any lines may be evicted and a's may be filled. */
    method Replace(a: nat)
      requires Sane() && a < |mem|
      modifies this
      ensures Sane() && |mem| == |old(mem)|
      ensures old(Valid()) ==> Valid() && Cpu() == old(Cpu())
      ensures old(Valid()) ==> forall x: nat :: old(Settled(x)) ==> Settled(x)
      ensures quiet ==> mem == old(mem) && cache == old(cache)
    {
      if quiet {
        return;
      }
      while *
        invariant Sane() && |mem| == |old(mem)|
        invariant old(Valid()) ==> Valid() && Cpu() == old(Cpu())
        invariant old(Valid()) ==> forall x: nat :: old(Settled(x)) ==> Settled(x)
        decreases cache.Keys
      {
        if cache.Keys == {} { break; }
        var b :| b in cache;
        Evict(b);
      }
      if * {
        LineInMemory(L, mem, cache, a);
        BaseAligned(a, L);
        Fill(Base(a, L));
      }
    }

    method ReadByte(a: nat) returns (v: Byte)
      requires Sane() && a < |mem|
      modifies this
      ensures Sane() && |mem| == |old(mem)|
      ensures old(Valid()) ==> Valid() && Cpu() == old(Cpu()) && v == Cpu()[a]
      ensures old(Valid()) ==> forall x: nat :: old(Settled(x)) ==> Settled(x)
      ensures quiet ==> mem == old(mem) && cache == old(cache) && v == old(Cpu())[a]
    {
      Replace(a);
      var b := Base(a, L);
      if b in cache {
        assert LinePlaced(L, mem, b, cache[b]);
        v := cache[b].data[a - b];
      } else {
        v := mem[a];
      }
    }

    /** A store updates the line where it is cached and memory where it is not. */
    method WriteByte(a: nat, v: Byte)
      requires Sane() && a < |mem|
      modifies this
      ensures Sane() && |mem| == |old(mem)|
      ensures old(Valid()) ==> Valid() && Cpu() == old(Cpu())[a := v]
      ensures old(Valid()) && v == old(Cpu())[a] ==> forall x: nat :: old(Settled(x)) ==> Settled(x)
      ensures quiet ==> Cpu() == old(Cpu())[a := v] && cache.Keys == old(cache).Keys
      ensures quiet ==> mem == if Base(a, L) in cache then old(mem) else old(mem)[a := v]
    {
      Replace(a);
      var b := Base(a, L);
      if b in cache {
        StoreCached(L, mem, cache, a, v);
        var line := Line(cache[b].data[a - b := v], true);
        if Valid() {
          DirtyCoherent(L, mem, cache, b, line);
        }
        cache := cache[b := line];
      } else {
        StoreOneUncached(L, mem, cache, a, v);
        mem := mem[a := v];
      }
    }

    /** A store straight to memory, past the cache.  Where it stores what the CPU
        sees anyway, nothing is seen to change. */
    method StoreBypassing(a: nat, v: Byte)
      requires Sane() && a < |mem|
      modifies this`mem
      ensures Sane() && mem == old(mem)[a := v]
      ensures Cpu() == if Base(a, L) in cache then old(Cpu()) else old(Cpu())[a := v]
      ensures old(Valid()) && v == old(Cpu())[a] ==> Valid() && Cpu() == old(Cpu())
    {
      OverwriteOne(mem, a, v);
      if v == Cpu()[a] {
        StoreSeen(L, mem, cache, a, [v]);
      }
      if Base(a, L) in cache {
        StoreBehind(L, mem, cache, a, v);
      } else {
        StoreOneUncached(L, mem, cache, a, v);
      }
      mem := mem[a := v];
    }

    /** Writes line b back if it is cached and dirty. */
    method CleanLine(b: nat)
      requires Sane()
      modifies this
      ensures Sane() && |mem| == |old(mem)| && Cpu() == old(Cpu())
      ensures old(Valid()) ==> Valid() && forall x: nat :: old(Settled(x)) ==> Settled(x)
      ensures cache.Keys == old(cache).Keys
      ensures b in cache ==> !cache[b].dirty && cache[b].data == old(cache)[b].data
      ensures forall c :: c in cache && c != b ==> cache[c] == old(cache)[c]
    {
      if b in cache && cache[b].dirty {
        WriteBackInvisible(L, mem, cache, b);
        WriteBackSettles(L, mem, cache, b);
        mem := Overwrite(mem, b, cache[b].data);
        cache := cache[b := Line(cache[b].data, false)];
      }
    }

    /** `sys_dcache_clean_range`: writes back every line of the range. */
    method SysDcacheCleanRange(addr: nat, dsize: int)
      requires Sane() && Aligned(addr, L) && addr + dsize <= |mem|
      modifies this
      ensures Sane() && |mem| == |old(mem)| && Cpu() == old(Cpu())
      ensures old(Valid()) ==> Valid()
      ensures cache.Keys == old(cache).Keys
      ensures forall b :: b in cache && Named(b, addr, dsize) ==> !cache[b].dirty
      ensures forall b :: b in cache && !Named(b, addr, dsize) ==> cache[b] == old(cache)[b]
    {
      var opSize, opAddr := dsize, addr;
      while opSize > 0
        invariant Sane() && |mem| == |old(mem)| && Cpu() == old(Cpu())
        invariant old(Valid()) ==> Valid()
        invariant opAddr + opSize == addr + dsize && opAddr >= addr
        invariant Aligned(opAddr, L)
        invariant opAddr == addr || opAddr < addr + dsize + L
        invariant cache.Keys == old(cache).Keys
        invariant forall b :: b in cache && Named(b, addr, dsize) && b < opAddr ==> !cache[b].dirty
        invariant forall b :: b in cache && !(Named(b, addr, dsize) && b < opAddr) ==> cache[b] == old(cache)[b]
        decreases opSize
      {
        CleanLine(opAddr);
        AlignedNext(opAddr, L);
        NoLineBetween(L, mem, cache, opAddr);
        opAddr := opAddr + L;
        opSize := opSize - L;
      }
    }

    /** `sys_dcache_invalid_range`: drops every line of the range, dirty or not. */
    method SysDcacheInvalidRange(addr: nat, dsize: int)
      requires Sane() && Aligned(addr, L) && addr + dsize <= |mem|
      modifies this`cache
      ensures Sane()
      ensures old(Valid()) ==> Valid()
      ensures forall b :: b in cache <==> b in old(cache) && !Named(b, addr, dsize)
      ensures forall b :: b in cache ==> cache[b] == old(cache)[b]
    {
      var opSize, opAddr := dsize, addr;
      while opSize > 0
        invariant Sane()
        invariant old(Valid()) ==> Valid()
        invariant opAddr + opSize == addr + dsize && opAddr >= addr
        invariant Aligned(opAddr, L)
        invariant forall b :: b in cache <==> b in old(cache) && !(Named(b, addr, dsize) && b < opAddr)
        invariant forall b :: b in cache ==> cache[b] == old(cache)[b]
        decreases opSize
      {
        DropPlaced(L, mem, cache, opAddr);
        AlignedNext(opAddr, L);
        NoLineBetween(L, mem, cache, opAddr);
        cache := cache - {opAddr};
        opAddr := opAddr + L;
        opSize := opSize - L;
      }
    }

    /** The DMA engine copies n bytes in memory, reversing each element of g
        bytes; it neither reads nor updates the cache. */
    method Transfer(dst: nat, src: nat, n: nat, g: nat)
      requires Whole(n, g)
      requires dst + n <= |mem| && src + n <= |mem|
      modifies this`mem
      ensures mem == Overwrite(old(mem), dst, Swapped(old(mem)[src..src + n], g))
    {
      mem := Overwrite(mem, dst, Swapped(mem[src..src + n], g));
    }

    /** The DMA engine recycling the four bytes of a word, from byte phase on. */
    method TransferRecycle(dst: nat, w: nat, n: nat, phase: nat)
      requires dst + n <= |mem|
      modifies this`mem
      ensures mem == Overwrite(old(mem), dst, Recycled(w, phase, n))
    {
      mem := Overwrite(mem, dst, Recycled(w, phase, n));
    }
  }

  /** The calls name exactly the lines that meet their range, which is what the
      range loops of both cores are proved to name for an aligned address. */
  lemma NamedIsMeets(b: nat, L: nat, addr: nat, dsize: int)
    requires L > 0 && Aligned(b, L) && Aligned(addr, L)
    ensures Named(b, addr, dsize) <==> Meets(b, L, addr, dsize)
  {
    LinesDisjoint(b, addr, L);
  }

  lemma NoLineBetween(L: nat, mem: seq<Byte>, cache: Cache, a: nat)
    requires Placed(L, mem, cache) && Aligned(a, L)
    ensures forall b :: b in cache && b < a + L ==> b <= a
  {
    forall b | b in cache && b < a + L
      ensures b <= a
    {
      assert LinePlaced(L, mem, b, cache[b]);
      LinesDisjoint(b, a, L);
    }
  }

  lemma AlignedNext(a: nat, L: nat)
    requires L > 0 && Aligned(a, L)
    ensures Aligned(a + L, L)
  {
  }

  lemma DropPlaced(L: nat, mem: seq<Byte>, cache: Cache, b: nat)
    requires Placed(L, mem, cache)
    ensures Placed(L, mem, cache - {b}) && (Coherent(L, mem, cache) ==> Coherent(L, mem, cache - {b}))
  {
    forall c | c in cache - {b}
      ensures LinePlaced(L, mem, c, (cache - {b})[c])
    {
      assert LinePlaced(L, mem, c, cache[c]);
    }
    if Coherent(L, mem, cache) {
      forall c | c in cache - {b}
        ensures LineOk(L, mem, c, (cache - {b})[c])
      {
        assert LineOk(L, mem, c, cache[c]);
      }
    }
  }

  lemma DropClean(L: nat, mem: seq<Byte>, cache: Cache, b: nat)
    requires Coherent(L, mem, cache) && b in cache && !cache[b].dirty
    ensures Coherent(L, mem, cache - {b})
    ensures View(L, mem, cache - {b}) == View(L, mem, cache)
  {
    DropPlaced(L, mem, cache, b);
    assert LineOk(L, mem, b, cache[b]);
  }

  /** Storing to memory what the CPU sees anyway is invisible. */
  lemma StoreSeen(L: nat, mem: seq<Byte>, cache: Cache, at: nat, data: seq<Byte>)
    requires Placed(L, mem, cache) && at + |data| <= |mem| && data == View(L, mem, cache)[at..at + |data|]
    ensures Placed(L, Overwrite(mem, at, data), cache)
    ensures View(L, Overwrite(mem, at, data), cache) == View(L, mem, cache)
    ensures Coherent(L, mem, cache) ==> Coherent(L, Overwrite(mem, at, data), cache)
  {
    var v, mem' := View(L, mem, cache), Overwrite(mem, at, data);
    StorePlaced(L, mem, cache, at, data);
    forall x | 0 <= x < |mem|
      ensures Peek(L, mem', cache, x) == Peek(L, mem, cache, x)
    {
      assert at <= x < at + |data| ==> data[x - at] == v[x];
    }
    if Coherent(L, mem, cache) {
      SeenCoherent(L, mem, cache, at, data);
    }
  }

  lemma SeenCoherent(L: nat, mem: seq<Byte>, cache: Cache, at: nat, data: seq<Byte>)
    requires Coherent(L, mem, cache) && at + |data| <= |mem| && data == View(L, mem, cache)[at..at + |data|]
    ensures Coherent(L, Overwrite(mem, at, data), cache)
  {
    var v, mem' := View(L, mem, cache), Overwrite(mem, at, data);
    StorePlaced(L, mem, cache, at, data);
    forall b | b in cache
      ensures LineOk(L, mem', b, cache[b])
    {
      assert LineOk(L, mem, b, cache[b]);
      if !cache[b].dirty {
        forall x | b <= x < b + L
          ensures mem'[x] == mem[x]
        {
          BaseUnique(x, b, L);
          assert v[x] == mem[b..b + L][x - b];
          assert at <= x < at + |data| ==> data[x - at] == v[x];
        }
        assert mem'[b..b + L] == mem[b..b + L];
      }
    }
  }
}
