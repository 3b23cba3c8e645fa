/** Physical memory behind a write-back data cache.
    The CPU sees a line where it is cached and memory elsewhere; a DMA engine
    sees memory only.  Lines may be written back, evicted and filled at any CPU
    access; none of that changes what the CPU sees. */
module CacheModel {
  import opened Bits
  import opened Lines

  type Byte = b: int | 0 <= b < 256

  datatype Line = Line(data: seq<Byte>, dirty: bool)

  /** Cached lines by the address of their first byte. */
  type Cache = map<nat, Line>

  predicate LineSize(L: nat) {
    L == 1 || L == 2 || L == 4 || L == 8 || L == 16 || L == 32
  }

  /** Every cached line lies in memory. */
  ghost predicate Placed(L: nat, mem: seq<Byte>, cache: Cache) {
    && LineSize(L) && |mem| % 32 == 0 && |mem| <= WORD
    && forall b :: b in cache ==> LinePlaced(L, mem, b, cache[b])
  }

  ghost predicate LinePlaced(L: nat, mem: seq<Byte>, b: nat, line: Line)
    requires L > 0
  {
    Aligned(b, L) && b + L <= |mem| && |line.data| == L
  }

  /** And only a dirty one differs from it. */
  ghost predicate Coherent(L: nat, mem: seq<Byte>, cache: Cache) {
    && LineSize(L) && |mem| % 32 == 0 && |mem| <= WORD
    && forall b :: b in cache ==> LineOk(L, mem, b, cache[b])
  }

  ghost predicate LineOk(L: nat, mem: seq<Byte>, b: nat, line: Line)
    requires L > 0
  {
    LinePlaced(L, mem, b, line) && (!line.dirty ==> line.data == mem[b..b + L])
  }

  /** The byte the CPU reads at a. */
  ghost function Peek(L: nat, mem: seq<Byte>, cache: Cache, a: nat): Byte
    requires Placed(L, mem, cache) && a < |mem|
  {
    var b := Base(a, L);
    if b in cache then assert LinePlaced(L, mem, b, cache[b]); cache[b].data[a - b] else mem[a]
  }

  /** The memory as the CPU reads it. */
  ghost function View(L: nat, mem: seq<Byte>, cache: Cache): (v: seq<Byte>)
    requires Placed(L, mem, cache)
    ensures |v| == |mem|
    ensures forall a :: 0 <= a < |v| ==> v[a] == Peek(L, mem, cache, a)
  {
    seq(|mem|, a requires 0 <= a < |mem| && Placed(L, mem, cache) => Peek(L, mem, cache, a))
  }

  function Overwrite(v: seq<Byte>, at: nat, data: seq<Byte>): (w: seq<Byte>)
    requires at + |data| <= |v|
    ensures |w| == |v|
  {
    seq<Byte>(|v|, x requires 0 <= x < |v| => if at <= x < at + |data| then data[x - at] else v[x])
  }

  lemma OverwriteAt(v: seq<Byte>, at: nat, data: seq<Byte>, a: nat)
    requires at + |data| <= |v| && a < |v|
    ensures Overwrite(v, at, data)[a] == if at <= a < at + |data| then data[a - at] else v[a]
  {
  }

  /** A 32-byte boundary is a line boundary. */
  lemma AlignedTo32(x: nat, L: nat)
    requires LineSize(L) && x % 32 == 0
    ensures Aligned(x, L)
  {
    Base32(x);
    if L < 32 { AlignedHalf(x, 16); }
    if L < 16 { AlignedHalf(x, 8); }
    if L < 8 { AlignedHalf(x, 4); }
    if L < 4 { AlignedHalf(x, 2); }
    if L < 2 { AlignedHalf(x, 1); }
  }

  lemma LineInMemory(L: nat, mem: seq<Byte>, cache: Cache, a: nat)
    requires Placed(L, mem, cache) && a < |mem|
    ensures Base(a, L) + L <= |mem|
  {
    AlignedTo32(|mem|, L);
    if Base(a, L) + L > |mem| {
      BaseAligned(a, L);
      BaseUnique(|mem|, Base(a, L), L);
    }
  }

  /** Writing a cached line back changes memory to agree with it, keeps a
      coherent cache coherent and is invisible to the CPU. */
  lemma WriteBackInvisible(L: nat, mem: seq<Byte>, cache: Cache, b: nat)
    requires Placed(L, mem, cache) && b in cache
    ensures LinePlaced(L, mem, b, cache[b])
    ensures var mem', cache' := Overwrite(mem, b, cache[b].data), cache[b := Line(cache[b].data, false)];
      && Placed(L, mem', cache') && View(L, mem', cache') == View(L, mem, cache)
      && (Coherent(L, mem, cache) ==> Coherent(L, mem', cache'))
  {
    assert LinePlaced(L, mem, b, cache[b]);
    var mem', cache' := Overwrite(mem, b, cache[b].data), cache[b := Line(cache[b].data, false)];
    forall a | 0 <= a < |mem|
      ensures mem'[a] == if b <= a < b + L then cache[b].data[a - b] else mem[a]
    {
      OverwriteAt(mem, b, cache[b].data, a);
    }
    forall c | c in cache'
      ensures LinePlaced(L, mem', c, cache'[c])
    {
      assert LinePlaced(L, mem, c, cache[c]);
    }
    if Coherent(L, mem, cache) {
      forall c | c in cache'
        ensures LineOk(L, mem', c, cache'[c])
      {
        assert LineOk(L, mem, c, cache[c]);
        LinesDisjoint(b, c, L);
        assert c != b ==> mem'[c..c + L] == mem[c..c + L];
        assert mem'[b..b + L] == cache[b].data;
      }
    }
    forall a | 0 <= a < |mem|
      ensures Peek(L, mem', cache', a) == Peek(L, mem, cache, a)
    {
      if b <= a < b + L {
        BaseUnique(a, b, L);
      }
    }
  }

  /** A written-back line agrees with what the CPU saw there. */
  lemma WriteBackSettles(L: nat, mem: seq<Byte>, cache: Cache, b: nat)
    requires Placed(L, mem, cache) && b in cache
    ensures LinePlaced(L, mem, b, cache[b])
    ensures var mem' := Overwrite(mem, b, cache[b].data);
      forall a :: 0 <= a < |mem| ==>
        mem'[a] == if b <= a < b + L then View(L, mem, cache)[a] else mem[a]
  {
    assert LinePlaced(L, mem, b, cache[b]);
    var mem' := Overwrite(mem, b, cache[b].data);
    forall a | b <= a < b + L
      ensures mem'[a] == Peek(L, mem, cache, a)
    {
      BaseUnique(a, b, L);
      assert mem'[b + (a - b)] == cache[b].data[a - b];
    }
  }

  /** Dropping lines reveals memory on those lines and nothing else: a byte keeps
      its value exactly when it was elsewhere or memory already agreed. */
  lemma DropReveals(L: nat, mem: seq<Byte>, before: Cache, after: Cache, a: nat)
    requires Placed(L, mem, before) && Placed(L, mem, after) && a < |mem|
    requires forall b :: b in after ==> b in before && after[b] == before[b]
    ensures Peek(L, mem, after, a) == if Base(a, L) in after then Peek(L, mem, before, a) else mem[a]
    ensures Peek(L, mem, after, a) == Peek(L, mem, before, a)
       <==> Base(a, L) in after || mem[a] == Peek(L, mem, before, a)
  {
  }

  /** Filling a line from memory is invisible. */
  lemma FillInvisible(L: nat, mem: seq<Byte>, cache: Cache, b: nat)
    requires Coherent(L, mem, cache) && b !in cache && Aligned(b, L) && b + L <= |mem|
    ensures var cache' := cache[b := Line(mem[b..b + L], false)];
      Coherent(L, mem, cache') && View(L, mem, cache') == View(L, mem, cache)
  {
    var cache' := cache[b := Line(mem[b..b + L], false)];
    forall c | c in cache'
      ensures LineOk(L, mem, c, cache'[c])
    {
      assert c in cache ==> LineOk(L, mem, c, cache[c]);
    }
  }

  /** A CPU store into a cached line changes the view at that byte only. */
  lemma StoreCached(L: nat, mem: seq<Byte>, cache: Cache, a: nat, v: Byte)
    requires Placed(L, mem, cache) && a < |mem| && Base(a, L) in cache
    ensures LinePlaced(L, mem, Base(a, L), cache[Base(a, L)])
    ensures var b := Base(a, L);
      var cache' := cache[b := Line(cache[b].data[a - b := v], true)];
      Placed(L, mem, cache') && View(L, mem, cache') == View(L, mem, cache)[a := v]
  {
    var b := Base(a, L);
    assert LinePlaced(L, mem, b, cache[b]);
    var line := Line(cache[b].data[a - b := v], true);
    var cache' := cache[b := line];
    forall c | c in cache'
      ensures LinePlaced(L, mem, c, cache'[c])
    {
      assert c != b ==> LinePlaced(L, mem, c, cache[c]);
    }
    forall x | 0 <= x < |mem|
      ensures Peek(L, mem, cache', x) == if x == a then v else Peek(L, mem, cache, x)
    {
      if Base(x, L) == b {
        assert cache'[b] == line;
      }
    }
  }

  /** A dirty line never makes a cache incoherent. */
  lemma DirtyCoherent(L: nat, mem: seq<Byte>, cache: Cache, b: nat, line: Line)
    requires Coherent(L, mem, cache) && LinePlaced(L, mem, b, line) && line.dirty
    ensures Coherent(L, mem, cache[b := line])
  {
    var cache' := cache[b := line];
    forall c | c in cache'
      ensures LineOk(L, mem, c, cache'[c])
    {
      assert c != b ==> LineOk(L, mem, c, cache[c]);
    }
  }

  /** A memory with one dirty line over it. */
  lemma OneDirty(L: nat, mem: seq<Byte>, b: nat, line: Line)
    requires LineSize(L) && |mem| % 32 == 0 && |mem| <= WORD && LinePlaced(L, mem, b, line) && line.dirty
    ensures Coherent(L, mem, map[b := line]) && Placed(L, mem, map[b := line])
    ensures forall a :: 0 <= a < |mem| ==>
              View(L, mem, map[b := line])[a] == if b <= a < b + L then line.data[a - b] else mem[a]
  {
    DirtyCoherent(L, mem, map[], b, line);
    forall a | 0 <= a < |mem|
      ensures Peek(L, mem, map[b := line], a) == if b <= a < b + L then line.data[a - b] else mem[a]
    {
      if b <= a < b + L {
        BaseUnique(a, b, L);
      }
    }
  }

  /** A store straight to memory, on lines that are not cached. */
  lemma StoreUncached(L: nat, mem: seq<Byte>, cache: Cache, at: nat, data: seq<Byte>)
    requires Placed(L, mem, cache) && at + |data| <= |mem|
    requires forall a :: at <= a < at + |data| ==> Base(a, L) !in cache
    ensures Placed(L, Overwrite(mem, at, data), cache)
    ensures View(L, Overwrite(mem, at, data), cache) == Overwrite(View(L, mem, cache), at, data)
  {
    StorePlaced(L, mem, cache, at, data);
    var mem' := Overwrite(mem, at, data);
    var v, w := View(L, mem, cache), View(L, mem', cache);
    forall a | 0 <= a < |mem|
      ensures w[a] == Overwrite(v, at, data)[a]
    {
      OverwriteAt(v, at, data, a);
      assert w[a] == Peek(L, mem', cache, a) && v[a] == Peek(L, mem, cache, a);
    }
  }

  lemma UncachedCoherent(L: nat, mem: seq<Byte>, cache: Cache, at: nat, data: seq<Byte>)
    requires Coherent(L, mem, cache) && at + |data| <= |mem|
    requires forall a :: at <= a < at + |data| ==> Base(a, L) !in cache
    ensures Coherent(L, Overwrite(mem, at, data), cache)
  {
    StorePlaced(L, mem, cache, at, data);
    var mem' := Overwrite(mem, at, data);
    forall b | b in cache
      ensures LineOk(L, mem', b, cache[b])
    {
      assert LineOk(L, mem, b, cache[b]);
      forall a | b <= a < b + L
        ensures mem'[a] == mem[a]
      {
        BaseUnique(a, b, L);
      }
      assert mem'[b..b + L] == mem[b..b + L];
    }
  }

  /** A store to memory moves no line. */
  lemma StorePlaced(L: nat, mem: seq<Byte>, cache: Cache, at: nat, data: seq<Byte>)
    requires Placed(L, mem, cache) && at + |data| <= |mem|
    ensures Placed(L, Overwrite(mem, at, data), cache)
    ensures forall a :: 0 <= a < |mem| ==>
              Overwrite(mem, at, data)[a] == if at <= a < at + |data| then data[a - at] else mem[a]
  {
    var mem' := Overwrite(mem, at, data);
    forall a | 0 <= a < |mem|
      ensures mem'[a] == if at <= a < at + |data| then data[a - at] else mem[a]
    {
      OverwriteAt(mem, at, data, a);
    }
    forall b | b in cache
      ensures LinePlaced(L, mem', b, cache[b])
    {
      assert LinePlaced(L, mem, b, cache[b]);
    }
  }

  /** Memory and cache together. */
  datatype State = State(mem: seq<Byte>, cache: Cache)

  lemma OverwriteOne(v: seq<Byte>, a: nat, x: Byte)
    requires a < |v|
    ensures Overwrite(v, a, [x]) == v[a := x]
  {
  }

  lemma StoreOneUncached(L: nat, mem: seq<Byte>, cache: Cache, a: nat, v: Byte)
    requires Placed(L, mem, cache) && a < |mem| && Base(a, L) !in cache
    ensures Placed(L, mem[a := v], cache) && View(L, mem[a := v], cache) == View(L, mem, cache)[a := v]
    ensures Coherent(L, mem, cache) ==> Coherent(L, mem[a := v], cache)
  {
    OverwriteOne(mem, a, v);
    OverwriteOne(View(L, mem, cache), a, v);
    StoreUncached(L, mem, cache, a, [v]);
    if Coherent(L, mem, cache) {
      UncachedCoherent(L, mem, cache, a, [v]);
    }
  }

  /** A store past the cache to a cached line is not seen. */
  lemma StoreBehind(L: nat, mem: seq<Byte>, cache: Cache, a: nat, v: Byte)
    requires Placed(L, mem, cache) && a < |mem| && Base(a, L) in cache
    ensures Placed(L, mem[a := v], cache) && View(L, mem[a := v], cache) == View(L, mem, cache)
  {
    OverwriteOne(mem, a, v);
    StorePlaced(L, mem, cache, a, [v]);
  }
}
