/** The copies of a range's first and last 32-byte blocks, on values: what memory
    holds and what the CPU sees after each, with no cache line replaced. */
module EndBlocks {
  import opened Lines
  import opened CacheModel

  /** What memory holds, what the CPU sees, and which lines are cached. */
  datatype Sight = Sight(mem: seq<Byte>, seen: seq<Byte>, cached: set<nat>)

  ghost function SightOf(L: nat, s: State): Sight
    requires Placed(L, s.mem, s.cache)
  {
    Sight(s.mem, View(L, s.mem, s.cache), s.cache.Keys)
  }

  /** v with data written from a on, except to cached lines. */
  ghost function Uncached(L: nat, v: seq<Byte>, cached: set<nat>, a: nat, data: seq<Byte>): (w: seq<Byte>)
    requires L > 0 && a + |data| <= |v|
    ensures |w| == |v|
  {
    seq<Byte>(|v|, x requires 0 <= x < |v| =>
      if a <= x < a + |data| && Base(x, L) !in cached then data[x - a] else v[x])
  }

  lemma UncachedAt(L: nat, v: seq<Byte>, cached: set<nat>, a: nat, data: seq<Byte>, x: nat)
    requires L > 0 && a + |data| <= |v| && x < |v|
    ensures Uncached(L, v, cached, a, data)[x]
         == if a <= x < a + |data| && Base(x, L) !in cached then data[x - a] else v[x]
  {
  }

  /** A block written at `at`: past the cache straight to memory, or by
      the CPU with no line replaced. */
  ghost function Put(L: nat, s: Sight, block: seq<Byte>, at: nat, past: bool): (t: Sight)
    requires L > 0 && at + |block| <= |s.mem| == |s.seen|
    ensures |t.mem| == |t.seen| == |s.mem| && t.cached == s.cached
  {
    if past then Sight(Uncached(L, s.mem, {}, at, block), Uncached(L, s.seen, s.cached, at, block), s.cached)
    else Sight(Uncached(L, s.mem, s.cached, at, block), Uncached(L, s.seen, {}, at, block), s.cached)
  }

  /** A block is written byte by byte, */
  lemma PutNext(L: nat, s: Sight, block: seq<Byte>, at: nat, past: bool, k: nat)
    requires L > 0 && at + |block| <= |s.mem| == |s.seen| && k < |block|
    ensures Put(L, s, block[..k + 1], at, past) == Put(L, Put(L, s, block[..k], at, past), [block[k]], at + k, past)
  {
    var t, u := Put(L, s, block[..k + 1], at, past), Put(L, s, block[..k], at, past);
    var w := Put(L, u, [block[k]], at + k, past);
    assert t.mem == w.mem;
    assert t.seen == w.seen;
  }

  lemma PutNothing(L: nat, s: Sight, block: seq<Byte>, at: nat, past: bool)
    requires L > 0 && at + |block| <= |s.mem| == |s.seen|
    ensures Put(L, s, block[..0], at, past) == s
  {
    var t := Put(L, s, block[..0], at, past);
    assert t.mem == s.mem;
    assert t.seen == s.seen;
  }

  /** and a byte where it belongs. */
  lemma PutOne(L: nat, s: Sight, b: Byte, x: nat, past: bool)
    requires L > 0 && x < |s.mem| == |s.seen|
    ensures Put(L, s, [b], x, past)
         == Sight(if past || Base(x, L) !in s.cached then s.mem[x := b] else s.mem,
                  if !past || Base(x, L) !in s.cached then s.seen[x := b] else s.seen, s.cached)
  {
    var t := Put(L, s, [b], x, past);
    assert t.mem == if past || Base(x, L) !in s.cached then s.mem[x := b] else s.mem;
    assert t.seen == if !past || Base(x, L) !in s.cached then s.seen[x := b] else s.seen;
  }

  /** The copy of a block. */
  ghost function Copied(L: nat, s: Sight, from: nat, at: nat, past: bool): (t: Sight)
    requires L > 0 && from + 32 <= |s.mem| == |s.seen| && at + 32 <= |s.mem|
    ensures |t.mem| == |t.seen| == |s.mem| && t.cached == s.cached
  {
    Put(L, s, s.seen[from..from + 32], at, past)
  }

  /** What it makes of the byte at x, seen and in memory. */
  lemma CopiedAt(L: nat, s: Sight, from: nat, at: nat, past: bool, x: nat)
    requires L > 0 && from + 32 <= |s.mem| == |s.seen| && at + 32 <= |s.mem| && x < |s.mem|
    ensures var t := Copied(L, s, from, at, past);
      && (at <= x < at + 32 ==>
           && t.seen[x] == (if past && Base(x, L) in s.cached then s.seen[x] else s.seen[from + (x - at)])
           && t.mem[x] == (if !past && Base(x, L) in s.cached then s.mem[x] else s.seen[from + (x - at)]))
      && (!(at <= x < at + 32) ==> t.seen[x] == s.seen[x] && t.mem[x] == s.mem[x])
  {
    var block := s.seen[from..from + 32];
    if past {
      UncachedAt(L, s.seen, s.cached, at, block, x);
      UncachedAt(L, s.mem, {}, at, block, x);
    } else {
      UncachedAt(L, s.mem, s.cached, at, block, x);
      UncachedAt(L, s.seen, {}, at, block, x);
    }
  }

  /** The CPU sees memory at x unless x is cached. */
  ghost predicate OpenAt(L: nat, s: Sight, x: nat)
    requires L > 0 && x < |s.mem| == |s.seen|
  {
    Base(x, L) in s.cached || s.seen[x] == s.mem[x]
  }

  /** Where the first and the last block of a range are copied to, and whether
      that goes past the cache. */
  datatype Copies = Copies(first: nat, firstPast: bool, last: nat, lastPast: bool)

  predicate InMemory(c: Copies, lo: nat, size: nat, all: nat) {
    32 <= size && lo + size <= all && c.first + 32 <= all && c.last + 32 <= all
  }

  /** The two copies, one after the other. */
  ghost function EndsCopied(L: nat, c: Copies, s: Sight, lo: nat, size: nat): (t: Sight)
    requires L > 0 && |s.mem| == |s.seen| && InMemory(c, lo, size, |s.mem|)
    ensures |t.mem| == |t.seen| == |s.mem| && t.cached == s.cached
  {
    Copied(L, Copied(L, s, lo, c.first, c.firstPast), lo + size - 32, c.last, c.lastPast)
  }

  /** What the CPU sees once the lines of the range have been dropped as well. */
  ghost function Dealt(L: nat, c: Copies, s: Sight, lo: nat, size: nat): (v: seq<Byte>)
    requires L > 0 && |s.mem| == |s.seen| && InMemory(c, lo, size, |s.mem|)
    ensures |v| == |s.mem|
  {
    var t := EndsCopied(L, c, s, lo, size);
    Overwrite(t.seen, lo, t.mem[lo..lo + size])
  }

  lemma DealtAt(L: nat, c: Copies, s: Sight, lo: nat, size: nat, x: nat)
    requires L > 0 && |s.mem| == |s.seen| && InMemory(c, lo, size, |s.mem|) && x < |s.mem|
    ensures var t := EndsCopied(L, c, s, lo, size);
      Dealt(L, c, s, lo, size)[x] == if lo <= x < lo + size then t.mem[x] else t.seen[x]
  {
    var t := EndsCopied(L, c, s, lo, size);
    OverwriteAt(t.seen, lo, t.mem[lo..lo + size], x);
  }

  /** Copied onto themselves, the blocks look as before and what memory agreed with
      stays; past the cache, the blocks also reach memory. */
  lemma CopiedHome(L: nat, s: Sight, lo: nat, size: nat, past: bool, x: nat)
    requires L > 0 && |s.mem| == |s.seen| && 32 <= size && lo + size <= |s.mem| && x < |s.mem| && OpenAt(L, s, x)
    ensures var b := lo + size - 32; var t := EndsCopied(L, Copies(lo, past, b, past), s, lo, size);
      && t.seen[x] == s.seen[x] && (s.mem[x] == s.seen[x] ==> t.mem[x] == s.seen[x])
      && (past && (lo <= x < lo + 32 || b <= x < b + 32) ==> t.mem[x] == s.seen[x])
  {
    CopiedAt(L, s, lo, lo, past, x);
    CopiedAt(L, Copied(L, s, lo, lo, past), lo + size - 32, lo + size - 32, past, x);
  }

  lemma HomeSeen(L: nat, s: Sight, lo: nat, size: nat, past: bool)
    requires L > 0 && |s.mem| == |s.seen| && 32 <= size && lo + size <= |s.mem|
    requires forall x :: 0 <= x < |s.mem| ==> OpenAt(L, s, x)
    ensures EndsCopied(L, Copies(lo, past, lo + size - 32, past), s, lo, size).seen == s.seen
  {
    var t := EndsCopied(L, Copies(lo, past, lo + size - 32, past), s, lo, size);
    forall x | 0 <= x < |s.mem|
      ensures t.seen[x] == s.seen[x]
    {
      CopiedHome(L, s, lo, size, past, x);
    }
  }

  lemma HomeDealt(L: nat, s: Sight, lo: nat, size: nat)
    requires L > 0 && |s.mem| == |s.seen| && 32 <= size && lo + size <= |s.mem|
    requires forall x :: 0 <= x < |s.mem| ==> OpenAt(L, s, x)
    ensures forall x :: 0 <= x < |s.mem| && !(lo + 32 <= x < lo + size - 32) ==>
              Dealt(L, Copies(lo, true, lo + size - 32, true), s, lo, size)[x] == s.seen[x]
  {
    var c := Copies(lo, true, lo + size - 32, true);
    var d := Dealt(L, c, s, lo, size);
    forall x | 0 <= x < |s.mem| && !(lo + 32 <= x < lo + size - 32)
      ensures d[x] == s.seen[x]
    {
      CopiedHome(L, s, lo, size, true, x);
      DealtAt(L, c, s, lo, size, x);
    }
  }

  /** The second copy does not bring the range's last byte home past the cache,
      and the first brings at most an earlier byte there. */
  predicate LastLeft(c: Copies, lo: nat, size: nat) {
    var e := lo + size - 1;
    && (c.firstPast && c.first <= e < c.first + 32 ==> lo < c.first)
    && (c.lastPast ==> !(c.last <= e < c.last + 32))
  }

  /** Then the byte, where it is cached and memory has another value, is lost. */
  lemma LastLost(L: nat, c: Copies, s: Sight, lo: nat, size: nat)
    requires L > 0 && |s.mem| == |s.seen| && InMemory(c, lo, size, |s.mem|) && LastLeft(c, lo, size)
    requires Base(lo + size - 1, L) in s.cached && s.mem[lo + size - 1] == 0
    requires forall x :: lo <= x < lo + size - 1 ==> s.seen[x] == 0
    ensures Dealt(L, c, s, lo, size)[lo + size - 1] == 0
  {
    var e := lo + size - 1;
    CopiedAt(L, s, lo, c.first, c.firstPast, e);
    CopiedAt(L, Copied(L, s, lo, c.first, c.firstPast), lo + size - 32, c.last, c.lastPast, e);
    DealtAt(L, c, s, lo, size, e);
  }

  predicate Apart(a: nat, b: nat) {
    a + 32 <= b || b + 32 <= a
  }

  /** With nothing cached, the first copy shows at its target if the second leaves
      it alone or is the same one, */
  lemma FirstShows(L: nat, c: Copies, s: Sight, lo: nat, size: nat)
    requires L > 0 && |s.mem| == |s.seen| && s.cached == {} && InMemory(c, lo, size, |s.mem|)
    requires Apart(c.first, lo) && (Apart(c.first, c.last) || (c.first == c.last && size == 32))
    ensures EndsCopied(L, c, s, lo, size).seen[c.first] == s.seen[lo]
  {
    var mid := Copied(L, s, lo, c.first, c.firstPast);
    CopiedAt(L, s, lo, c.first, c.firstPast, c.first);
    CopiedAt(L, s, lo, c.first, c.firstPast, lo);
    CopiedAt(L, mid, lo + size - 32, c.last, c.lastPast, c.first);
  }

  /** and the second if the first left the block it copies alone, or came home. */
  lemma SecondShows(L: nat, c: Copies, s: Sight, lo: nat, size: nat)
    requires L > 0 && |s.mem| == |s.seen| && s.cached == {} && InMemory(c, lo, size, |s.mem|)
    requires Apart(c.first, lo + size - 32) || c.first == lo
    ensures EndsCopied(L, c, s, lo, size).seen[c.last] == s.seen[lo + size - 32]
  {
    var b := lo + size - 32;
    CopiedAt(L, s, lo, c.first, c.firstPast, b);
    CopiedAt(L, Copied(L, s, lo, c.first, c.firstPast), b, c.last, c.lastPast, c.last);
  }

  /** The byte that a copy overwrites elsewhere, and the one it takes the value of:
      the first copy's, or the second's where the first is undone or comes home. */
  function Stray(c: Copies, lo: nat, size: nat): (nat, nat)
    requires size >= 32
  {
    if c.first != lo && (c.first != c.last || size == 32) then (c.first, lo) else (c.last, lo + size - 32)
  }

  /** The targets are the blocks themselves, each other or apart. */
  predicate InBlocks(c: Copies, lo: nat, size: nat)
    requires size >= 32
  {
    var b := lo + size - 32;
    && (c.first == lo || Apart(c.first, lo)) && (c.last == b || Apart(c.last, b))
    && (c.first == b || Apart(c.first, b)) && (c.first == c.last || Apart(c.first, c.last))
  }

  /** With nothing cached the one takes the value of the other, unless the first
      copy's target is the last block. */
  lemma StrayTakes(L: nat, c: Copies, s: Sight, lo: nat, size: nat)
    requires L > 0 && |s.mem| == |s.seen| && s.cached == {} && InMemory(c, lo, size, |s.mem|)
    requires InBlocks(c, lo, size) && (c.first != lo + size - 32 || c.first != c.last || size == 32)
    ensures var (to, from) := Stray(c, lo, size);
      EndsCopied(L, c, s, lo, size).seen[to] == s.seen[from]
  {
    if c.first != lo && (c.first != c.last || size == 32) {
      FirstShows(L, c, s, lo, size);
    } else {
      SecondShows(L, c, s, lo, size);
    }
  }
}
