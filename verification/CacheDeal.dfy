/** `cache_deal_invalid` and `cache_deal_writeback`: maintenance of a buffer
    that need not be line aligned.  The blocks at its two ends are first copied
    to their masked addresses, which is meant to write them to memory through
    the uncached window. */
module CacheDeal {
  import opened Bits
  import opened Lines
  import opened CacheModel
  import opened CachedMachine
  import opened Dma
  import opened AddressWindow
  import opened EndBlocks

  /** The start and the size of the range the functions round the buffer to. */
  function RoundedStart(dst: nat): nat {
    dst - dst % 32
  }

  function RoundedSize(dst: nat, n: nat): nat {
    n + dst % 32 + (32 - (dst + n) % 32)
  }

  lemma RoundedShape(dst: nat, n: nat)
    ensures var lo := RoundedStart(dst); var hi := lo + RoundedSize(dst, n);
      && lo % 32 == 0 && hi % 32 == 0 && lo + 32 <= hi
      && lo <= dst < lo + 32 && hi - 32 <= dst + n < hi
  {
    var e := dst + n;
    assert RoundedStart(dst) + RoundedSize(dst, n) == e - e % 32 + 32;
    assert RoundedStart(dst) <= e - e % 32;
  }

  /** A range of whole 32-byte blocks of cached addresses in memory, whose size
      fits an `int32_t`, in a memory that the aliased addresses are part of. */
  predicate Blocks(w: Alias, lo: nat, size: nat, all: nat) {
    && w.Valid() && w.hi <= all && lo % 32 == 0 && size % 32 == 0
    && 32 <= size < HALF && lo + size <= all && w.Misses(lo, size)
  }

  /** What the functions are given: a buffer whose rounded range is such a one. */
  predicate Given(w: Alias, dst: nat, n: nat, all: nat) {
    && w.Valid() && w.hi <= all && RoundedSize(dst, n) < HALF
    && RoundedStart(dst) + RoundedSize(dst, n) <= all && w.Misses(RoundedStart(dst), RoundedSize(dst, n))
  }

  lemma GivenBlocks(w: Alias, dst: nat, n: nat, all: nat)
    requires Given(w, dst, n, all)
    ensures Blocks(w, RoundedStart(dst), RoundedSize(dst, n), all)
  {
    RoundedShape(dst, n);
  }

  /** The memory a 32-byte copy to address `to` ends up in. */
  function Target(w: Alias, to: nat): nat {
    if w.Holds(to) then w.Home(to) else to
  }

  /** Where the two end blocks are copied to. */
  function FirstTo(lo: nat): nat {
    Masked(lo)
  }

  function LastTo(lo: nat, size: nat): nat
    requires size >= 32
  {
    Masked(lo) + size - 32
  }

  function Ends(w: Alias, lo: nat, size: nat): Copies
    requires size >= 32
  {
    Copies(Target(w, FirstTo(lo)), w.Holds(FirstTo(lo)), Target(w, LastTo(lo, size)), w.Holds(LastTo(lo, size)))
  }

  lemma EndsIn(w: Alias, lo: nat, size: nat, all: nat)
    requires Blocks(w, lo, size, all)
    ensures InMemory(Ends(w, lo, size), lo, size, all)
    ensures Ends(w, lo, size).first % 32 == 0 && Ends(w, lo, size).last % 32 == 0
  {
    BlockWindow(w, lo, 0);
    BlockWindow(w, lo, size - 32);
  }

  /** Two views agree outside [dst, dst+n), except for the window, where the CPU
      sees memory itself. */
  ghost predicate Kept(w: Alias, v: seq<Byte>, u: seq<Byte>, dst: nat, n: nat) {
    |v| == |u| && forall a :: 0 <= a < |u| && !(dst <= a < dst + n) && !w.Holds(a) ==> v[a] == u[a]
  }

  /** And everywhere else. */
  ghost predicate KeptAll(w: Alias, v: seq<Byte>, u: seq<Byte>) {
    |v| == |u| && forall a :: 0 <= a < |u| && !w.Holds(a) ==> v[a] == u[a]
  }

  /** The buffers the window serves: those whose rounded range has it throughout. */
  predicate Served(w: Alias, dst: nat, n: nat) {
    w.Covers(RoundedStart(dst), RoundedSize(dst, n))
  }

  /** Below the second segment the blocks are copied onto themselves by the CPU, and
      where the range has a window throughout, past the cache. */
  lemma EndsHome(w: Alias, lo: nat, size: nat)
    requires w.Valid() && w.Misses(lo, size) && 32 <= size
    ensures lo < WINDOW ==> Ends(w, lo, size) == Copies(lo, false, lo + size - 32, false)
    ensures w.Covers(lo, size) ==> Ends(w, lo, size) == Copies(lo, true, lo + size - 32, true)
  {
    if w.Covers(lo, size) {
      CoveredHeld(w, lo, size);
    }
  }

  lemma CoveredHeld(w: Alias, lo: nat, size: nat)
    requires w.Valid() && w.Covers(lo, size) && 32 <= size
    ensures w.Holds(FirstTo(lo)) && w.Home(FirstTo(lo)) == lo
    ensures w.Holds(LastTo(lo, size)) && w.Home(LastTo(lo, size)) == lo + size - 32
  {
    SameSegment(w.lo, lo);
  }

  /** Where the copies go otherwise, from the second segment on: to the window's
      memory past the cache, or to lower addresses. */
  lemma EndsAway(w: Alias, lo: nat, size: nat, all: nat)
    requires Blocks(w, lo, size, all) && lo >= WINDOW && !w.Covers(lo, size)
    ensures var c := Ends(w, lo, size);
      && (if c.firstPast then WINDOW <= c.first else c.first + 32 <= lo && c.first < WINDOW)
      && (if c.lastPast then WINDOW <= c.last else c.last + WINDOW <= lo + size - 32)
      && (c.firstPast == c.lastPast ==> c.last - c.first == size - 32)
      && (c.firstPast && c.lastPast ==> c.first != lo && c.last != lo + size - 32)
  {
    BlockWindow(w, lo, 0);
    BlockWindow(w, lo, size - 32);
  }

  lemma EndsInBlocks(w: Alias, lo: nat, size: nat, all: nat)
    requires Blocks(w, lo, size, all)
    ensures InBlocks(Ends(w, lo, size), lo, size)
  {
    EndsIn(w, lo, size, all);
    Moved(lo, size, 32);
    AlignedInBlocks(Ends(w, lo, size), lo, size);
  }

  lemma AlignedInBlocks(c: Copies, lo: nat, size: nat)
    requires size >= 32 && lo % 32 == 0 && (lo + (size - 32)) % 32 == 0 && c.first % 32 == 0 && c.last % 32 == 0
    ensures InBlocks(c, lo, size)
  {
    Ordered(c.first, lo);
    Ordered(c.last, lo + (size - 32));
    Ordered(c.first, lo + (size - 32));
    Ordered(c.first, c.last);
  }

  lemma Ordered(x: nat, y: nat)
    requires x % 32 == 0 && y % 32 == 0
    ensures x == y || Apart(x, y)
  {
    BlocksApart(x, y);
    BlocksApart(y, x);
  }

  /** Without a window throughout, the range's last byte is left out of memory where
      the addresses are not masked or the first block has a window. */
  lemma EndsLeave(w: Alias, lo: nat, size: nat, all: nat)
    requires Blocks(w, lo, size, all)
    requires !w.Covers(lo, size) && (lo < WINDOW || w.Holds(FirstTo(lo)))
    ensures LastLeft(Ends(w, lo, size), lo, size)
  {
    if lo < WINDOW {
      EndsHome(w, lo, size);
    } else {
      EndsAway(w, lo, size, all);
      EndsInBlocks(w, lo, size, all);
    }
  }

  /** And from the second segment on a byte elsewhere is overwritten. */
  lemma EndsStray(w: Alias, lo: nat, size: nat, all: nat)
    requires Blocks(w, lo, size, all) && lo >= WINDOW && !w.Covers(lo, size)
    ensures var c := Ends(w, lo, size); var (to, from) := Stray(c, lo, size);
      && InBlocks(c, lo, size) && (c.first != lo + size - 32 || c.first != c.last || size == 32)
      && to + 32 <= all && from + 32 <= all && Apart(to, from) && !w.Holds(to)
      && (!c.firstPast ==> to + 32 <= lo)
  {
    EndsIn(w, lo, size, all);
    EndsAway(w, lo, size, all);
    EndsInBlocks(w, lo, size, all);
  }

  /** The copies that are made for a buffer. */
  function EndsOf(w: Alias, dst: nat, n: nat): Copies
    requires RoundedSize(dst, n) >= 32
  {
    Ends(w, RoundedStart(dst), RoundedSize(dst, n))
  }

  lemma GivenEnds(w: Alias, dst: nat, n: nat, all: nat)
    requires Given(w, dst, n, all)
    ensures Blocks(w, RoundedStart(dst), RoundedSize(dst, n), all)
    ensures InMemory(EndsOf(w, dst, n), RoundedStart(dst), RoundedSize(dst, n), all)
  {
    GivenBlocks(w, dst, n, all);
    EndsIn(w, RoundedStart(dst), RoundedSize(dst, n), all);
  }

  /** What the CPU sees after the invalidation, and after the write-back, with no
      line replaced unasked. */
  ghost function InvalidView(L: nat, w: Alias, s: Sight, dst: nat, n: nat): seq<Byte>
    requires L > 0 && |s.mem| == |s.seen| && Given(w, dst, n, |s.mem|)
  {
    GivenEnds(w, dst, n, |s.mem|);
    Dealt(L, EndsOf(w, dst, n), s, RoundedStart(dst), RoundedSize(dst, n))
  }

  ghost function WritebackView(L: nat, w: Alias, s: Sight, dst: nat, n: nat): seq<Byte>
    requires L > 0 && |s.mem| == |s.seen| && Given(w, dst, n, |s.mem|)
  {
    GivenEnds(w, dst, n, |s.mem|);
    EndsCopied(L, EndsOf(w, dst, n), s, RoundedStart(dst), RoundedSize(dst, n)).seen
  }

  /** From this state the invalidation keeps every byte outside the buffer. */
  ghost predicate InvalidKeeps(L: nat, w: Alias, s: State, dst: nat, n: nat)
    requires Placed(L, s.mem, s.cache) && Given(w, dst, n, |s.mem|)
  {
    Kept(w, InvalidView(L, w, SightOf(L, s), dst, n), View(L, s.mem, s.cache), dst, n)
  }

  /** And the write-back every byte. */
  ghost predicate WritebackKeeps(L: nat, w: Alias, s: State, dst: nat, n: nat)
    requires Placed(L, s.mem, s.cache) && Given(w, dst, n, |s.mem|)
  {
    KeptAll(w, WritebackView(L, w, SightOf(L, s), dst, n), View(L, s.mem, s.cache))
  }

  /** A range that has the window throughout is dealt with safely. */
  lemma ServedKeeps(L: nat, w: Alias, s: State, dst: nat, n: nat)
    requires Placed(L, s.mem, s.cache) && Given(w, dst, n, |s.mem|) && Served(w, dst, n)
    ensures InvalidKeeps(L, w, s, dst, n)
  {
    GivenEnds(w, dst, n, |s.mem|);
    RoundedShape(dst, n);
    EndsHome(w, RoundedStart(dst), RoundedSize(dst, n));
    HomeKept(L, w, EndsOf(w, dst, n), s, RoundedStart(dst), RoundedSize(dst, n), dst, n);
  }

  lemma HomeKept(L: nat, w: Alias, c: Copies, s: State, lo: nat, size: nat, dst: nat, n: nat)
    requires Placed(L, s.mem, s.cache) && 32 <= size && lo + size <= |s.mem|
    requires c == Copies(lo, true, lo + size - 32, true) && lo <= dst < lo + 32 && lo + size - 32 <= dst + n
    ensures Kept(w, Dealt(L, c, SightOf(L, s), lo, size), View(L, s.mem, s.cache), dst, n)
  {
    HomeDealt(L, SightOf(L, s), lo, size);
  }

  lemma EndsKeepView(L: nat, w: Alias, s: State, dst: nat, n: nat)
    requires Placed(L, s.mem, s.cache) && Given(w, dst, n, |s.mem|)
    requires Served(w, dst, n) || RoundedStart(dst) < WINDOW
    ensures WritebackKeeps(L, w, s, dst, n)
  {
    GivenEnds(w, dst, n, |s.mem|);
    EndsHome(w, RoundedStart(dst), RoundedSize(dst, n));
    HomeLooks(L, EndsOf(w, dst, n), s, RoundedStart(dst), RoundedSize(dst, n), Served(w, dst, n));
  }

  lemma HomeLooks(L: nat, c: Copies, s: State, lo: nat, size: nat, past: bool)
    requires Placed(L, s.mem, s.cache) && 32 <= size && lo + size <= |s.mem|
    requires c == Copies(lo, past, lo + size - 32, past)
    ensures EndsCopied(L, c, SightOf(L, s), lo, size).seen == View(L, s.mem, s.cache)
  {
    HomeSeen(L, SightOf(L, s), lo, size, past);
  }

  /** Zeros, but for a block of ones. */
  function Marked(all: nat, at: nat): (mem: seq<Byte>)
    requires at + 32 <= all
    ensures |mem| == all
  {
    Overwrite(seq<Byte>(all, _ => 0), at, seq<Byte>(32, _ => 1))
  }

  lemma MarkedAt(all: nat, at: nat, x: nat)
    requires at + 32 <= all && x < all
    ensures Marked(all, at)[x] == if at <= x < at + 32 then 1 else 0
  {
    OverwriteAt(seq<Byte>(all, _ => 0), at, seq<Byte>(32, _ => 1), x);
  }

  /** With nothing cached the CPU sees memory. */
  lemma BareSight(L: nat, mem: seq<Byte>)
    requires LineSize(L) && |mem| % 32 == 0 && |mem| <= WORD
    ensures Coherent(L, mem, map[]) && SightOf(L, State(mem, map[])) == Sight(mem, mem, {})
  {
  }

  /** A state with nothing cached in which another byte is overwritten. */
  lemma StrayState(L: nat, w: Alias, all: nat, dst: nat, n: nat) returns (s: State)
    requires LineSize(L) && all % 32 == 0 && all <= WORD && Given(w, dst, n, all)
    requires RoundedStart(dst) >= WINDOW && !Served(w, dst, n)
    ensures Coherent(L, s.mem, s.cache) && |s.mem| == all
    ensures !WritebackKeeps(L, w, s, dst, n)
    ensures !w.Holds(FirstTo(RoundedStart(dst))) ==> !InvalidKeeps(L, w, s, dst, n)
  {
    var lo, size := RoundedStart(dst), RoundedSize(dst, n);
    GivenEnds(w, dst, n, all);
    RoundedShape(dst, n);
    EndsStray(w, lo, size, all);
    s := BareStray(L, EndsOf(w, dst, n), all, lo, size);
  }

  lemma BareStray(L: nat, c: Copies, all: nat, lo: nat, size: nat) returns (s: State)
    requires LineSize(L) && all % 32 == 0 && all <= WORD && InMemory(c, lo, size, all)
    requires InBlocks(c, lo, size) && (c.first != lo + size - 32 || c.first != c.last || size == 32)
    requires var (to, from) := Stray(c, lo, size); Apart(to, from)
    ensures Coherent(L, s.mem, s.cache) && |s.mem| == all
    ensures var to := Stray(c, lo, size).0; var v := View(L, s.mem, s.cache);
      && EndsCopied(L, c, SightOf(L, s), lo, size).seen[to] != v[to]
      && (to + 32 <= lo ==> Dealt(L, c, SightOf(L, s), lo, size)[to] != v[to])
  {
    var (to, from) := Stray(c, lo, size);
    var mem := Marked(all, from);
    s := State(mem, map[]);
    BareSight(L, mem);
    MarkedAt(all, from, from);
    MarkedAt(all, from, to);
    var now := Sight(mem, mem, {});
    StrayTakes(L, c, now, lo, size);
    DealtAt(L, c, now, lo, size, to);
  }

  /** A state with the range's last line cached dirty, whose last byte is lost. */
  lemma LostState(L: nat, w: Alias, all: nat, dst: nat, n: nat) returns (s: State)
    requires LineSize(L) && all % 32 == 0 && all <= WORD && Given(w, dst, n, all)
    requires !Served(w, dst, n) && (RoundedStart(dst) < WINDOW || w.Holds(FirstTo(RoundedStart(dst))))
    ensures Coherent(L, s.mem, s.cache) && |s.mem| == all
    ensures !InvalidKeeps(L, w, s, dst, n)
  {
    var lo, size := RoundedStart(dst), RoundedSize(dst, n);
    GivenEnds(w, dst, n, all);
    RoundedShape(dst, n);
    EndsLeave(w, lo, size, all);
    s := LastDirty(L, EndsOf(w, dst, n), all, lo, size);
    NotHeldLast(w, lo, size);
  }

  lemma LastDirty(L: nat, c: Copies, all: nat, lo: nat, size: nat) returns (s: State)
    requires LineSize(L) && all % 32 == 0 && all <= WORD && (lo + size) % 32 == 0
    requires InMemory(c, lo, size, all) && LastLeft(c, lo, size)
    ensures Coherent(L, s.mem, s.cache) && |s.mem| == all
    ensures Dealt(L, c, SightOf(L, s), lo, size)[lo + size - 1] != View(L, s.mem, s.cache)[lo + size - 1]
  {
    s := DirtyLast(L, all, lo + size);
    var now := SightOf(L, s);
    LastLost(L, c, now, lo, size);
  }

  lemma NotHeldLast(w: Alias, lo: nat, size: nat)
    requires w.Misses(lo, size) && size > 0
    ensures !w.Holds(lo + size - 1)
  {
  }

  /** Memory and view all zero but for one byte, cached dirty, at the end of a block. */
  lemma DirtyLast(L: nat, all: nat, hi: nat) returns (s: State)
    requires LineSize(L) && all % 32 == 0 && all <= WORD && hi % 32 == 0 && 32 <= hi <= all
    ensures Coherent(L, s.mem, s.cache) && |s.mem| == all && Base(hi - 1, L) in s.cache.Keys && s.mem[hi - 1] == 0
    ensures View(L, s.mem, s.cache)[hi - 1] == 1
    ensures forall x :: 0 <= x < hi - 1 ==> View(L, s.mem, s.cache)[x] == 0
  {
    LastLine(hi, L);
    var b := hi - L;
    var line := Line(seq<Byte>(L, i => if i == L - 1 then 1 else 0), true);
    s := State(seq<Byte>(all, _ => 0), map[b := line]);
    OneDirty(L, s.mem, b, line);
  }

  lemma LastLine(hi: nat, L: nat)
    requires LineSize(L) && hi % 32 == 0 && hi >= 32
    ensures Aligned(hi - L, L) && Base(hi - 1, L) == hi - L
  {
    AlignedTo32(hi, L);
    BaseUnique(hi - 1, hi - L, L);
  }

  /** `cache_deal_invalid` keeps every byte outside the buffer, from every
      coherent state, exactly when the rounded range has a window throughout. */
  lemma InvalidKeepsExactly(L: nat, w: Alias, all: nat, dst: nat, n: nat)
    requires LineSize(L) && all % 32 == 0 && all <= WORD && Given(w, dst, n, all)
    ensures (forall s: State :: Coherent(L, s.mem, s.cache) && |s.mem| == all ==> InvalidKeeps(L, w, s, dst, n))
       <==> Served(w, dst, n)
  {
    if Served(w, dst, n) {
      forall s: State | Coherent(L, s.mem, s.cache) && |s.mem| == all
        ensures InvalidKeeps(L, w, s, dst, n)
      {
        ServedKeeps(L, w, s, dst, n);
      }
    } else if RoundedStart(dst) < WINDOW || w.Holds(FirstTo(RoundedStart(dst))) {
      var s := LostState(L, w, all, dst, n);
    } else {
      var s := StrayState(L, w, all, dst, n);
    }
  }

  /** `cache_deal_writeback` changes no view, from every coherent state, exactly
      when it has one, or lies where the masked address is the address itself. */
  lemma WritebackKeepsExactly(L: nat, w: Alias, all: nat, dst: nat, n: nat)
    requires LineSize(L) && all % 32 == 0 && all <= WORD && Given(w, dst, n, all)
    ensures (forall s: State :: Coherent(L, s.mem, s.cache) && |s.mem| == all ==> WritebackKeeps(L, w, s, dst, n))
       <==> Served(w, dst, n) || RoundedStart(dst) < WINDOW
  {
    if Served(w, dst, n) || RoundedStart(dst) < WINDOW {
      forall s: State | Coherent(L, s.mem, s.cache) && |s.mem| == all
        ensures WritebackKeeps(L, w, s, dst, n)
      {
        EndsKeepView(L, w, s, dst, n);
      }
    } else {
      var s := StrayState(L, w, all, dst, n);
    }
  }

  /** The machine as it stands. */
  ghost function Now(m: Machine): Sight
    requires m.Sane()
    reads m
  {
    Sight(m.mem, m.Cpu(), m.cache.Keys)
  }

  /** Where memory agreed with v it still does. */
  ghost predicate StillAgrees(was: seq<Byte>, now: seq<Byte>, v: seq<Byte>) {
    |was| == |now| == |v| && forall x :: 0 <= x < |v| && was[x] == v[x] ==> now[x] == v[x]
  }

  /** Memory agrees with v on the n bytes from at on. */
  ghost predicate Reached(mem: seq<Byte>, v: seq<Byte>, at: nat, n: nat) {
    at + n <= |mem| == |v| && forall x :: at <= x < at + n ==> mem[x] == v[x]
  }

  /** The CPU still sees v, and memory agrees with it where it did. */
  ghost predicate Steady(m: Machine, was: seq<Byte>, v: seq<Byte>)
    reads m
  {
    m.Valid() && m.Sane() && m.Cpu() == v && StillAgrees(was, m.mem, v)
  }

  method LoadStep(m: Machine, a: nat, ghost was: seq<Byte>, ghost v: seq<Byte>) returns (b: Byte)
    requires m.Sane() && a < |m.mem|
    modifies m
    ensures m.Sane() && |m.mem| == |old(m.mem)|
    ensures old(Steady(m, was, v)) ==> Steady(m, was, v) && b == v[a]
    ensures m.quiet ==> m.mem == old(m.mem) && m.cache == old(m.cache) && b == old(m.Cpu())[a]
  {
    ghost var steady := Steady(m, was, v);
    assert steady ==> forall x: nat :: x < |v| && was[x] == v[x] ==> m.Settled(x);
    b := m.ReadByte(a);
    assert steady ==> forall x: nat :: x < |v| && was[x] == v[x] ==> m.Settled(x);
  }

  lemma SliceNext(u: seq<Byte>, from: nat, k: nat)
    requires from + k < |u|
    ensures u[from..from + k + 1] == u[from..from + k] + [u[from + k]]
  {
  }

  /** The reading half of a 32-byte `memcpy`. */
  method LoadBlock(m: Machine, from: nat, ghost was: seq<Byte>, ghost v: seq<Byte>) returns (block: seq<Byte>)
    requires m.Sane() && from + 32 <= |m.mem|
    modifies m
    ensures m.Sane() && |m.mem| == |old(m.mem)| && |block| == 32
    ensures old(Steady(m, was, v)) ==> Steady(m, was, v) && block == v[from..from + 32]
    ensures m.quiet ==> m.mem == old(m.mem) && m.cache == old(m.cache) && block == old(m.Cpu())[from..from + 32]
  {
    ghost var steady, u := Steady(m, was, v), m.Cpu();
    block := [];
    while |block| < 32
      invariant |block| <= 32 && m.Sane() && |m.mem| == |u|
      invariant steady ==> Steady(m, was, v) && block == v[from..from + |block|]
      invariant m.quiet ==> m.mem == old(m.mem) && m.cache == old(m.cache) && block == u[from..from + |block|]
    {
      SliceNext(u, from, |block|);
      if steady {
        SliceNext(v, from, |block|);
      }
      var b := LoadStep(m, from + |block|, was, v);
      block := block + [b];
    }
  }

  /** The first k bytes of a block have been stored, with no line replaced. */
  ghost predicate Stored(m: Machine, s: Sight, at: nat, block: seq<Byte>, k: nat, past: bool)
    requires m.L > 0 && at + |block| <= |s.mem| == |s.seen| && k <= |block|
    reads m
  {
    m.Sane() && Now(m) == Put(m.L, s, block[..k], at, past)
  }

  /** One byte of the writing half, by the CPU. */
  method StoreByte(m: Machine, x: nat, b: Byte, ghost was: seq<Byte>, ghost v: seq<Byte>, ghost goal: Sight)
    requires m.Sane() && x < |m.mem|
    requires m.quiet ==> goal == Put(m.L, Now(m), [b], x, false)
    modifies m
    ensures m.Sane() && |m.mem| == |old(m.mem)|
    ensures old(Steady(m, was, v)) && b == v[x] ==> Steady(m, was, v)
    ensures m.quiet ==> Now(m) == goal
  {
    ghost var steady := Steady(m, was, v) && b == v[x];
    PutOne(m.L, Now(m), b, x, false);
    assert steady ==> v[x := b] == v;
    assert steady ==> forall a: nat :: a < |v| && was[a] == v[a] ==> m.Settled(a);
    m.WriteByte(x, b);
    assert steady ==> forall a: nat :: a < |v| && was[a] == v[a] ==> m.Settled(a);
  }

  method StoreStep(m: Machine, at: nat, block: seq<Byte>, k: nat,
                   ghost s: Sight, ghost was: seq<Byte>, ghost v: seq<Byte>)
    requires m.Sane() && |m.mem| == |s.mem| == |s.seen| && k < |block| && at + |block| <= |m.mem|
    requires m.quiet ==> Stored(m, s, at, block, k, false)
    modifies m
    ensures m.Sane() && |m.mem| == |s.mem|
    ensures old(Steady(m, was, v)) && block == v[at..at + |block|] ==> Steady(m, was, v)
    ensures m.quiet ==> Stored(m, s, at, block, k + 1, false)
  {
    PutNext(m.L, s, block, at, false, k);
    StoreByte(m, at + k, block[k], was, v, Put(m.L, s, block[..k + 1], at, false));
  }

  /** The writing half, by the CPU. */
  method StoreBlock(m: Machine, at: nat, block: seq<Byte>, ghost was: seq<Byte>, ghost v: seq<Byte>, ghost goal: Sight)
    requires m.Sane() && |block| == 32 && at + 32 <= |m.mem|
    requires m.quiet ==> goal == Put(m.L, Now(m), block, at, false)
    modifies m
    ensures m.Sane() && |m.mem| == |old(m.mem)|
    ensures old(Steady(m, was, v)) && block == v[at..at + 32] ==> Steady(m, was, v)
    ensures m.quiet ==> Now(m) == goal
  {
    ghost var s, steady := Now(m), Steady(m, was, v) && block == v[at..at + 32];
    PutNothing(m.L, s, block, at, false);
    for k := 0 to 32
      invariant m.Sane() && |m.mem| == |s.mem|
      invariant steady ==> Steady(m, was, v)
      invariant m.quiet ==> Stored(m, s, at, block, k, false)
    {
      StoreStep(m, at, block, k, s, was, v);
    }
    assert block[..32] == block;
  }

  /** One byte of it past the cache; `own` says that the CPU sees it there anyway. */
  method PastByte(m: Machine, x: nat, b: Byte, ghost own: bool, ghost goal: Sight)
    requires m.Sane() && x < |m.mem| && goal == Put(m.L, Now(m), [b], x, true)
    requires own ==> m.Valid() && b == m.Cpu()[x]
    modifies m`mem
    ensures m.Sane() && |m.mem| == |old(m.mem)| && Now(m) == goal
    ensures own ==> m.Valid() && m.Cpu() == old(m.Cpu())
  {
    PutOne(m.L, Now(m), b, x, true);
    m.StoreBypassing(x, b);
  }

  method PastStep(m: Machine, at: nat, block: seq<Byte>, k: nat, ghost s: Sight, ghost v: seq<Byte>, ghost own: bool)
    requires m.Sane() && |m.mem| == |s.mem| == |s.seen| && k < |block| && at + |block| <= |m.mem|
    requires own ==> m.Valid() && m.Cpu() == v && block == v[at..at + |block|]
    requires Stored(m, s, at, block, k, true)
    modifies m`mem
    ensures m.Sane() && |m.mem| == |s.mem| && Stored(m, s, at, block, k + 1, true)
    ensures own ==> m.Valid() && m.Cpu() == v
  {
    PutNext(m.L, s, block, at, true, k);
    PastByte(m, at + k, block[k], own, Put(m.L, s, block[..k + 1], at, true));
  }

  lemma OwnReached(L: nat, was: seq<Byte>, mem: seq<Byte>, v: seq<Byte>, at: nat, block: seq<Byte>)
    requires L > 0 && |mem| == |v| && at + |block| <= |v| && block == v[at..at + |block|]
    ensures Reached(Uncached(L, mem, {}, at, block), v, at, |block|)
    ensures StillAgrees(was, mem, v) ==> StillAgrees(was, Uncached(L, mem, {}, at, block), v)
  {
  }

  /** The writing half, past the cache. */
  method StorePast(m: Machine, at: nat, block: seq<Byte>, ghost was: seq<Byte>, ghost v: seq<Byte>, ghost goal: Sight)
    requires m.Sane() && |block| == 32 && at + 32 <= |m.mem|
    requires m.quiet ==> goal == Put(m.L, Now(m), block, at, true)
    modifies m`mem
    ensures m.Sane() && |m.mem| == |old(m.mem)|
    ensures old(Steady(m, was, v)) && block == v[at..at + 32] ==> Steady(m, was, v) && Reached(m.mem, v, at, 32)
    ensures m.quiet ==> Now(m) == goal
  {
    ghost var s, own := Now(m), Steady(m, was, v) && block == v[at..at + 32];
    PutNothing(m.L, s, block, at, true);
    for k := 0 to 32
      invariant m.Sane() && |m.mem| == |s.mem|
      invariant own ==> m.Valid() && m.Cpu() == v
      invariant Stored(m, s, at, block, k, true)
    {
      PastStep(m, at, block, k, s, v, own);
    }
    assert block[..32] == block;
    if own {
      OwnReached(m.L, was, s.mem, v, at, block);
    }
  }

  /** A 32-byte `memcpy`, to an address that may be in the window. */
  method CopyBlock(m: Machine, from: nat, at: nat, past: bool,
                   ghost was: seq<Byte>, ghost v: seq<Byte>, ghost goal: Sight)
    requires m.Sane() && from + 32 <= |m.mem| && at + 32 <= |m.mem|
    requires m.quiet ==> goal == Copied(m.L, Now(m), from, at, past)
    modifies m
    ensures m.Sane() && |m.mem| == |old(m.mem)|
    ensures m.quiet ==> Now(m) == goal
    ensures old(Steady(m, was, v)) && from == at ==> Steady(m, was, v) && (past ==> Reached(m.mem, v, from, 32))
  {
    var block := LoadBlock(m, from, was, v);
    if past {
      StorePast(m, at, block, was, v, goal);
    } else {
      StoreBlock(m, at, block, was, v, goal);
    }
  }

  lemma AgreesOn(was: seq<Byte>, mid: seq<Byte>, now: seq<Byte>, v: seq<Byte>, at: nat, n: nat)
    requires StillAgrees(mid, now, v)
    ensures StillAgrees(was, mid, v) ==> StillAgrees(was, now, v)
    ensures Reached(mid, v, at, n) ==> Reached(now, v, at, n)
  {
  }

  /** The two end blocks. */
  method CopyEnds(m: Machine, w: Alias, lo: nat, size: nat)
    requires m.Valid() && Blocks(w, lo, size, |m.mem|) && InMemory(Ends(w, lo, size), lo, size, |m.mem|)
    modifies m
    ensures m.Sane() && |m.mem| == |old(m.mem)|
    ensures m.quiet ==> Now(m) == EndsCopied(m.L, Ends(w, lo, size), old(Now(m)), lo, size)
    ensures w.Covers(lo, size) || lo < WINDOW ==> Steady(m, old(m.mem), old(m.Cpu()))
    ensures w.Covers(lo, size) ==>
              Reached(m.mem, old(m.Cpu()), lo, 32) && Reached(m.mem, old(m.Cpu()), lo + size - 32, 32)
  {
    var d := And(lo, MASK);
    var d' := d + size - 32;
    var c := Copies(Target(w, d), w.Holds(d), Target(w, d'), w.Holds(d'));
    MaskedValue(lo);
    assert c == Ends(w, lo, size);
    EndsHome(w, lo, size);
    CopyTwo(m, c, lo, size, EndsCopied(m.L, c, Now(m), lo, size));
  }

  method CopyTwo(m: Machine, c: Copies, lo: nat, size: nat, ghost goal: Sight)
    requires m.Valid() && InMemory(c, lo, size, |m.mem|) && goal == EndsCopied(m.L, c, Now(m), lo, size)
    modifies m
    ensures m.Sane() && |m.mem| == |old(m.mem)|
    ensures m.quiet ==> Now(m) == goal
    ensures c.first == lo && c.last == lo + size - 32 ==> Steady(m, old(m.mem), old(m.Cpu()))
    ensures c.first == lo && c.last == lo + size - 32 && c.firstPast && c.lastPast ==>
              Reached(m.mem, old(m.Cpu()), lo, 32) && Reached(m.mem, old(m.Cpu()), lo + size - 32, 32)
  {
    ghost var was, v := m.mem, m.Cpu();
    CopyBlock(m, lo, c.first, c.firstPast, was, v, Copied(m.L, Now(m), lo, c.first, c.firstPast));
    ghost var mid := m.mem;
    CopyBlock(m, lo + size - 32, c.last, c.lastPast, mid, v, goal);
    if c.first == lo && c.last == lo + size - 32 {
      AgreesOn(was, mid, m.mem, v, lo, 32);
    }
  }

  /** A range of whole 32-byte blocks names exactly the lines of its bytes. */
  lemma RangeLines(lo: nat, size: nat, L: nat, a: nat)
    requires LineSize(L) && lo % 32 == 0 && (lo + size) % 32 == 0
    ensures Named(Base(a, L), lo, size) <==> lo <= a < lo + size
  {
    AlignedTo32(lo, L);
    AlignedTo32(lo + size, L);
    if lo <= a {
      BaseAbove(a, lo, L);
    }
    if lo + size <= a {
      BaseAbove(a, lo + size, L);
    }
    if a < lo && Base(a, L) >= lo {
      assert false;
    }
  }

  /** The invalidation of whole blocks. */
  method DropRange(m: Machine, lo: nat, size: nat)
    requires m.Sane() && lo % 32 == 0 && size % 32 == 0 && size < HALF && lo + size <= |m.mem|
    modifies m`cache
    ensures m.Sane() && (old(m.Valid()) ==> m.Valid())
    ensures forall b :: b in m.cache ==> !Named(b, lo, size)
    ensures m.Cpu() == Overwrite(old(m.Cpu()), lo, m.mem[lo..lo + size])
  {
    ghost var before := m.cache;
    AlignedTo32(lo, m.L);
    m.SysDcacheInvalidRange(lo, ToInt32(size));
    RangeDropped(m.L, m.mem, before, m.cache, lo, size);
  }

  lemma RangeDropped(L: nat, mem: seq<Byte>, before: Cache, after: Cache, lo: nat, size: nat)
    requires Placed(L, mem, before) && Placed(L, mem, after)
    requires lo % 32 == 0 && size % 32 == 0 && lo + size <= |mem|
    requires forall b :: b in after <==> b in before && !Named(b, lo, size)
    requires forall b :: b in after ==> after[b] == before[b]
    ensures View(L, mem, after) == Overwrite(View(L, mem, before), lo, mem[lo..lo + size])
  {
    var seen, w := View(L, mem, before), Overwrite(View(L, mem, before), lo, mem[lo..lo + size]);
    forall a | 0 <= a < |mem|
      ensures Peek(L, mem, after, a) == w[a]
    {
      RangeLines(lo, size, L, a);
      DropReveals(L, mem, before, after, a);
      OverwriteAt(seen, lo, mem[lo..lo + size], a);
    }
  }

  /** Memory laid over the view in the range: outside the buffer the view is what
      it was if memory agreed with it on the two end blocks. */
  lemma LaidOver(w: Alias, mem: seq<Byte>, v: seq<Byte>, lo: nat, size: nat, dst: nat, n: nat)
    requires |mem| == |v| && lo + size <= |v| && size >= 32 && lo <= dst < lo + 32 && lo + size - 32 <= dst + n
    requires Reached(mem, v, lo, 32) && Reached(mem, v, lo + size - 32, 32)
    ensures Kept(w, Overwrite(v, lo, mem[lo..lo + size]), v, dst, n)
  {
    forall x | 0 <= x < |v| && !(dst <= x < dst + n)
      ensures Overwrite(v, lo, mem[lo..lo + size])[x] == v[x]
    {
      OverwriteAt(v, lo, mem[lo..lo + size], x);
    }
  }

  lemma LaidReached(mem: seq<Byte>, v: seq<Byte>, lo: nat, size: nat)
    requires |mem| == |v| && lo + size <= |v|
    ensures Reached(mem, Overwrite(v, lo, mem[lo..lo + size]), lo, size)
  {
    forall x | lo <= x < lo + size
      ensures Overwrite(v, lo, mem[lo..lo + size])[x] == mem[x]
    {
      OverwriteAt(v, lo, mem[lo..lo + size], x);
    }
  }

  /** And a byte that memory agreed with is what it was wherever it is. */
  lemma LaidOverAgreed(w: Alias, was: seq<Byte>, mem: seq<Byte>, v: seq<Byte>, lo: nat, size: nat)
    requires StillAgrees(was, mem, v) && lo + size <= |v|
    ensures StillAgrees(was, Overwrite(v, lo, mem[lo..lo + size]), v)
    ensures Kept(w, Overwrite(v, lo, mem[lo..lo + size]), v, lo, size)
  {
    forall x | 0 <= x < |v|
      ensures Overwrite(v, lo, mem[lo..lo + size])[x] == if lo <= x < lo + size then mem[x] else v[x]
    {
      OverwriteAt(v, lo, mem[lo..lo + size], x);
    }
  }

  /** The invalidation of a range of whole blocks. */
  method InvalidBlocks(m: Machine, w: Alias, lo: nat, size: nat, ghost dst: nat, ghost n: nat, ghost goal: seq<Byte>)
    requires m.Valid() && Blocks(w, lo, size, |m.mem|) && InMemory(Ends(w, lo, size), lo, size, |m.mem|)
    requires goal == Dealt(m.L, Ends(w, lo, size), Now(m), lo, size)
    requires lo <= dst < lo + 32 && lo + size - 32 <= dst + n
    modifies m
    ensures m.Sane() && |m.mem| == |old(m.mem)|
    ensures forall b :: b in m.cache ==> !Named(b, lo, size)
    ensures Reached(m.mem, m.Cpu(), lo, size)
    ensures w.Covers(lo, size) ==> m.Valid() && Kept(w, m.Cpu(), old(m.Cpu()), dst, n)
    ensures lo < WINDOW ==>
              && m.Valid() && Kept(w, m.Cpu(), old(m.Cpu()), lo, size)
              && StillAgrees(old(m.mem), m.Cpu(), old(m.Cpu()))
    ensures m.quiet ==> m.Cpu() == goal
  {
    ghost var was, v := m.mem, m.Cpu();
    CopyEnds(m, w, lo, size);
    ghost var mem, seen := m.mem, m.Cpu();
    assert m.quiet ==> goal == Overwrite(seen, lo, mem[lo..lo + size]);
    if lo < WINDOW {
      LaidOverAgreed(w, was, mem, v, lo, size);
    }
    if w.Covers(lo, size) {
      LaidOver(w, mem, v, lo, size, dst, n);
    }
    LaidReached(mem, seen, lo, size);
    DropRange(m, lo, size);
    assert m.Cpu() == Overwrite(seen, lo, mem[lo..lo + size]);
  }

  /** `cache_deal_invalid`.  No line of the rounded range stays cached, so the CPU
      now sees what memory holds there.  Where the range has a window throughout,
      every byte outside the buffer keeps its value, dirty neighbours included;
      below the second segment those bytes do that memory already agreed with. */
  method CacheDealInvalid(m: Machine, w: Alias, dst: nat, n: nat)
    requires m.Valid() && Given(w, dst, n, |m.mem|)
    modifies m
    ensures m.Sane() && |m.mem| == |old(m.mem)|
    ensures forall b :: b in m.cache ==> !Named(b, RoundedStart(dst), RoundedSize(dst, n))
    ensures Reached(m.mem, m.Cpu(), RoundedStart(dst), RoundedSize(dst, n))
    ensures Served(w, dst, n) ==> m.Valid() && Kept(w, m.Cpu(), old(m.Cpu()), dst, n)
    ensures RoundedStart(dst) < WINDOW ==>
              && m.Valid() && Kept(w, m.Cpu(), old(m.Cpu()), RoundedStart(dst), RoundedSize(dst, n))
              && StillAgrees(old(m.mem), m.Cpu(), old(m.Cpu()))
    ensures m.quiet ==> m.Cpu() == InvalidView(m.L, w, old(Now(m)), dst, n)
  {
    var lo, size := RoundedStart(dst), RoundedSize(dst, n);
    GivenEnds(w, dst, n, |m.mem|);
    RoundedShape(dst, n);
    InvalidBlocks(m, w, lo, size, dst, n, InvalidView(m.L, w, Now(m), dst, n));
  }

  /** `cache_deal_writeback`.  Where the range has a window throughout, or lies
      below the second segment, memory agrees with the CPU's view over the whole
      range and that view changes nowhere. */
  method CacheDealWriteback(m: Machine, w: Alias, dst: nat, n: nat)
    requires m.Valid() && Given(w, dst, n, |m.mem|)
    modifies m
    ensures m.Sane() && |m.mem| == |old(m.mem)|
    ensures Served(w, dst, n) || RoundedStart(dst) < WINDOW ==>
              && m.Valid() && m.Cpu() == old(m.Cpu())
              && Reached(m.mem, m.Cpu(), RoundedStart(dst), RoundedSize(dst, n))
    ensures m.quiet ==> m.Cpu() == WritebackView(m.L, w, old(Now(m)), dst, n)
  {
    var lo, size := RoundedStart(dst), RoundedSize(dst, n);
    GivenEnds(w, dst, n, |m.mem|);
    CopyEnds(m, w, lo, size);
    CleanRange(m, lo, size);
  }

  /** The write-back of whole blocks. */
  method CleanRange(m: Machine, lo: nat, size: nat)
    requires m.Sane() && lo % 32 == 0 && size % 32 == 0 && size < HALF && lo + size <= |m.mem|
    modifies m
    ensures m.Sane() && |m.mem| == |old(m.mem)| && m.Cpu() == old(m.Cpu())
    ensures old(m.Valid()) ==> m.Valid() && Reached(m.mem, m.Cpu(), lo, size)
  {
    AlignedTo32(lo, m.L);
    m.SysDcacheCleanRange(lo, ToInt32(size));
    if m.Valid() {
      forall x | lo <= x < lo + size
        ensures m.mem[x] == m.Cpu()[x]
      {
        RangeLines(lo, size, m.L, x);
        CleanAgrees(m.L, m.mem, m.cache, x);
      }
    }
  }
}
