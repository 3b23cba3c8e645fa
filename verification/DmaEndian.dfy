/** `dma_memcpy_endian`: a copy that reverses the bytes of every 1-, 2- or
    4-byte element, by the CPU at the ends and by the DMA engine between. */
module DmaEndian {
  import opened CacheModel
  import opened CachedMachine
  import opened Dma

  predicate ElementSize(g: nat) {
    g == 1 || g == 2 || g == 4
  }

  /** The element size for endian type 0, 1 or 2. */
  function Element(kind: nat): (g: nat)
    requires kind <= 2
    ensures ElementSize(g) && Whole(32, g) && Whole(64, g)
  {
    ElementsIn64();
    if kind == 0 then 1 else if kind == 1 then 2 else 4
  }

  lemma ElementsIn64()
    ensures Whole(32, 1) && Whole(32, 2) && Whole(32, 4)
    ensures Whole(64, 1) && Whole(64, 2) && Whole(64, 4)
  {
    WholeBytes(64);
    WholeBytes(32);
    WholeMod(32);
    WholeMod(64);
  }

  lemma {:induction false} WholeMod(n: nat)
    ensures Whole(n, 2) <==> n % 2 == 0
    ensures Whole(n, 4) <==> n % 4 == 0
  {
    if n >= 4 {
      WholeMod(n - 4);
      WholeBack(n);
      ModBack(n);
    }
  }

  lemma WholeBack(n: nat)
    requires n >= 4
    ensures Whole(n, 2) == Whole(n - 4, 2) && Whole(n, 4) == Whole(n - 4, 4)
  {
    assert Whole(n, 2) == Whole(n - 2, 2) == Whole(n - 4, 2);
  }

  lemma ModBack(n: nat)
    requires n >= 4
    ensures n % 2 == (n - 4) % 2 && n % 4 == (n - 4) % 4
  {
  }

  /** The cases the function carries out; in all others it returns at once. */
  predicate Accepts(n: nat, kind: nat) {
    kind <= 2 && Whole(n, Element(kind))
  }

  /** The halfword byte reversal, `__REVSH` truncated to 16 bits. */
  function Rev16(w: nat): nat
    requires w < 0x1_0000
  {
    w % 0x100 * 0x100 + w / 0x100
  }

  function Word16(b0: Byte, b1: Byte): (w: nat)
    ensures w < 0x1_0000
  {
    b0 + 0x100 * b1
  }

  lemma Rev16Value(b0: Byte, b1: Byte)
    ensures Rev16(Word16(b0, b1)) == Word32(b1, b0, 0, 0)
  {
    var w := Word16(b0, b1);
    assert w % 0x100 == b0 && w / 0x100 == b1;
  }

  /** The word byte reversal, `__REV`. */
  function Rev32(w: nat): nat {
    Word32(WordByte(w, 3), WordByte(w, 2), WordByte(w, 1), WordByte(w, 0))
  }

  /** The g bytes of a word, low byte first. */
  function Bytes(w: nat, g: nat): (s: seq<Byte>)
    ensures |s| == g
  {
    seq<Byte>(g, k requires 0 <= k < g => WordByte(w, k))
  }

  lemma Reversed4(b0: Byte, b1: Byte, b2: Byte, b3: Byte)
    ensures Bytes(Rev32(Word32(b0, b1, b2, b3)), 4) == [b3, b2, b1, b0]
  {
    WordBytes(b0, b1, b2, b3);
    WordBytes(b3, b2, b1, b0);
  }

  lemma Reversed2(b0: Byte, b1: Byte)
    ensures Bytes(Rev16(Word16(b0, b1)), 2) == [b1, b0]
  {
    Rev16Value(b0, b1);
    WordBytes(b1, b0, 0, 0);
  }

  lemma ReversedCons(b: Byte, e: seq<Byte>)
    ensures Reversed([b] + e) == Reversed(e) + [b]
  {
    assert ([b] + e)[1..] == e;
  }

  lemma ReversedShort(b0: Byte, b1: Byte, b2: Byte, b3: Byte)
    ensures Reversed([b0]) == [b0]
    ensures Reversed([b0, b1]) == [b1, b0]
    ensures Reversed([b0, b1, b2, b3]) == [b3, b2, b1, b0]
  {
    ReversedCons(b0, [b1]);
    ReversedCons(b2, [b3]);
    ReversedCons(b1, [b2, b3]);
    ReversedCons(b0, [b1, b2, b3]);
    assert [b0, b1] == [b0] + [b1] && [b2, b3] == [b2] + [b3];
    assert [b1, b2, b3] == [b1] + [b2, b3] && [b0, b1, b2, b3] == [b0] + [b1, b2, b3];
  }

  /** The loaded element, reversed as its width demands. */
  function ReversedWord(e: seq<Byte>): (w: nat)
    requires ElementSize(|e|)
    ensures Bytes(w, |e|) == Reversed(e)
  {
    if |e| == 1 then
      assert e == [e[0]];
      ReversedShort(e[0], 0, 0, 0);
      e[0]
    else if |e| == 2 then
      assert e == [e[0], e[1]];
      ReversedShort(e[0], e[1], 0, 0);
      Reversed2(e[0], e[1]);
      Rev16(Word16(e[0], e[1]))
    else
      assert e == [e[0], e[1], e[2], e[3]];
      ReversedShort(e[0], e[1], e[2], e[3]);
      Reversed4(e[0], e[1], e[2], e[3]);
      Rev32(Word32(e[0], e[1], e[2], e[3]))
  }

  /** Loads the bytes of one element. */
  method LoadElement(m: Machine, a: nat, g: nat) returns (e: seq<Byte>)
    requires m.Valid() && a + g <= |m.mem|
    modifies m
    ensures m.Valid() && |m.mem| == |old(m.mem)| && m.Cpu() == old(m.Cpu())
    ensures e == m.Cpu()[a..a + g]
  {
    e := [];
    while |e| < g
      invariant |e| <= g && m.Valid() && |m.mem| == |old(m.mem)| && m.Cpu() == old(m.Cpu())
      invariant e == m.Cpu()[a..a + |e|]
    {
      var b := m.ReadByte(a + |e|);
      e := e + [b];
    }
  }

  lemma {:induction false} ReversedSnoc(e: seq<Byte>, b: Byte)
    ensures Reversed(e + [b]) == [b] + Reversed(e)
  {
    if e != [] {
      assert (e + [b])[1..] == e[1..] + [b];
      ReversedSnoc(e[1..], b);
    }
  }

  lemma {:induction false} ReversedTwice(e: seq<Byte>)
    ensures Reversed(Reversed(e)) == e
  {
    if e != [] {
      ReversedSnoc(Reversed(e[1..]), e[0]);
      ReversedTwice(e[1..]);
    }
  }

  /** Swapping within elements is an involution: the transfer undoes itself. */
  lemma {:induction false} SwappedTwice(data: seq<Byte>, g: nat)
    requires Whole(|data|, g)
    ensures Swapped(Swapped(data, g), g) == data
    decreases |data|
  {
    if data != [] {
      var s, head, tail := Swapped(data, g), Reversed(data[..g]), Swapped(data[g..], g);
      ReversedTwice(data[..g]);
      SwappedTwice(data[g..], g);
      assert s[..g] == head && s[g..] == tail;
    }
  }

  lemma {:induction false} SwappedConcat(x: seq<Byte>, y: seq<Byte>, g: nat)
    requires Whole(|x|, g) && Whole(|y|, g)
    ensures Whole(|x + y|, g) && Swapped(x + y, g) == Swapped(x, g) + Swapped(y, g)
    decreases |x|
  {
    if x == [] {
      assert x + y == y;
    } else {
      var z := x + y;
      SplitConcat(x, y, g);
      SwappedConcat(x[g..], y, g);
      assert Swapped(z, g) == Reversed(x[..g]) + (Swapped(x[g..], g) + Swapped(y, g));
    }
  }

  lemma SplitConcat(x: seq<Byte>, y: seq<Byte>, g: nat)
    requires g <= |x|
    ensures (x + y)[..g] == x[..g] && (x + y)[g..] == x[g..] + y
  {
  }

  lemma SwappedOne(e: seq<Byte>, g: nat)
    requires |e| == g > 0
    ensures Whole(g, g) && Swapped(e, g) == Reversed(e)
  {
    assert Whole(0, g);
    assert e[..g] == e && e[g..] == [];
  }

  /** The next element, taken reversed from the original data, extends the copy. */
  lemma ElementNext(v: seq<Byte>, at: nat, x: seq<Byte>, e: seq<Byte>, g: nat, now: seq<Byte>, d: nat)
    requires Whole(|x|, g) && |e| == g && at + |x| + g <= |v| && d == at + |x|
    requires now == Overwrite(v, at, Swapped(x, g))
    ensures Whole(|x + e|, g) && Overwrite(now, d, Reversed(e)) == Overwrite(v, at, Swapped(x + e, g))
  {
    SwappedOne(e, g);
    SwappedConcat(x, e, g);
    OverwriteTwice(v, at, Swapped(x, g), Reversed(e));
  }

  lemma OverwriteTwice(v: seq<Byte>, at: nat, x: seq<Byte>, y: seq<Byte>)
    requires at + |x| + |y| <= |v|
    ensures Overwrite(Overwrite(v, at, x), at + |x|, y) == Overwrite(v, at, x + y)
  {
  }

  /** Stores one element to CPU memory. */
  method StoreElement(m: Machine, a: nat, w: nat, g: nat)
    requires m.Valid() && a + g <= |m.mem|
    modifies m
    ensures m.Valid() && |m.mem| == |old(m.mem)|
    ensures m.Cpu() == Overwrite(old(m.Cpu()), a, Bytes(w, g))
  {
    ghost var v, data := m.Cpu(), Bytes(w, g);
    var k := 0;
    while k < g
      invariant k <= g && m.Valid() && |m.mem| == |old(m.mem)|
      invariant m.Cpu() == Overwrite(v, a, data[..k])
    {
      OverwriteNext(v, a, data, k);
      m.WriteByte(a + k, WordByte(w, k));
      k := k + 1;
    }
    assert data[..k] == data;
  }

  /** Stores one element to the local buffer. */
  method StoreLocal(buf: array<Byte>, a: nat, w: nat, g: nat)
    requires a + g <= buf.Length
    modifies buf
    ensures buf[..] == Overwrite(old(buf[..]), a, Bytes(w, g))
  {
    ghost var v, data := buf[..], Bytes(w, g);
    var k := 0;
    while k < g
      invariant k <= g && buf[..] == Overwrite(v, a, data[..k])
    {
      OverwriteNext(v, a, data, k);
      buf[a + k] := WordByte(w, k);
      k := k + 1;
    }
    assert data[..k] == data;
  }

  lemma TakeThen(data: seq<Byte>, i: nat, j: nat)
    requires i <= j <= |data|
    ensures data[..i] + data[i..j] == data[..j]
  {
  }

  lemma OverwriteApart(v: seq<Byte>, at: nat, x: seq<Byte>, s: nat, g: nat)
    requires at + |x| <= |v| && s + g <= |v| && (s + g <= at || at + |x| <= s)
    ensures Overwrite(v, at, x)[s..s + g] == v[s..s + g]
  {
  }

  /** One turn of the element loop, on values: the element next read from a
      disjoint source is still the original one, and extends the copy. */
  lemma TurnSeen(v: seq<Byte>, dst: nat, src: nat, data: seq<Byte>, g: nat, i: nat, j: nat,
                 d: nat, s: nat, now: seq<Byte>)
    requires Whole(i, g) && j == i + g <= |data| && d == dst + i && s == src + i
    requires dst + |data| <= |v| && src + |data| <= |v| && data == v[src..src + |data|]
    requires Disjoint(dst, src, |data|) && now == Overwrite(v, dst, Swapped(data[..i], g))
    ensures Whole(j, g) && now[s..s + g] == data[i..j]
    ensures Overwrite(now, d, Reversed(data[i..j])) == Overwrite(v, dst, Swapped(data[..j], g))
  {
    ElementNext(v, dst, data[..i], data[i..j], g, now, d);
    TakeThen(data, i, j);
    OverwriteApart(v, dst, Swapped(data[..i], g), s, g);
    SliceOfSlice(v, src, |data|, i, j);
  }

  /** Moves one element, reversed. */
  method SwapOne(m: Machine, dst: nat, src: nat, g: nat, ghost goal: seq<Byte>)
    requires m.Valid() && ElementSize(g) && dst + g <= |m.mem| && src + g <= |m.mem|
    requires goal == Overwrite(m.Cpu(), dst, Reversed(m.Cpu()[src..src + g]))
    modifies m
    ensures m.Valid() && |m.mem| == |old(m.mem)| && m.Cpu() == goal
  {
    var bytes := LoadElement(m, src, g);
    StoreElement(m, dst, ReversedWord(bytes), g);
  }

  /** The element loop for short copies: n >> kind elements. */
  method SwapSmall(m: Machine, dst: nat, src: nat, n: nat, g: nat)
    requires m.Valid() && ElementSize(g) && Whole(n, g)
    requires dst + n <= |m.mem| && src + n <= |m.mem| && Disjoint(dst, src, n)
    modifies m
    ensures m.Valid() && |m.mem| == |old(m.mem)|
    ensures m.Cpu() == Overwrite(old(m.Cpu()), dst, Swapped(old(m.Cpu())[src..src + n], g))
  {
    ghost var v := m.Cpu();
    ghost var data := v[src..src + n];
    var i := 0;
    while i < n
      invariant i <= n && Whole(i, g) && m.Valid() && |m.mem| == |v|
      invariant m.Cpu() == Overwrite(v, dst, Swapped(data[..i], g))
    {
      var j, d, s := i + g, dst + i, src + i;
      ghost var now := m.Cpu();
      WholeStep(n, i, g);
      TurnSeen(v, dst, src, data, g, i, j, d, s, now);
      SwapOne(m, d, s, g, Overwrite(v, dst, Swapped(data[..j], g)));
      i := j;
    }
    assert data[..n] == data;
  }

  /** One turn of the element loop into the local buffer, on values. */
  lemma OutTurnSeen(v: seq<Byte>, was: seq<Byte>, off: nat, src: nat, data: seq<Byte>, g: nat, i: nat, j: nat,
                    d: nat, s: nat, now: seq<Byte>)
    requires Whole(i, g) && j == i + g <= |data| && d == off + i && s == src + i
    requires off + |data| <= |was| && src + |data| <= |v| && data == v[src..src + |data|]
    requires now == Overwrite(was, off, Swapped(data[..i], g))
    ensures Whole(j, g) && v[s..s + g] == data[i..j]
    ensures Overwrite(now, d, Reversed(data[i..j])) == Overwrite(was, off, Swapped(data[..j], g))
  {
    ElementNext(was, off, data[..i], data[i..j], g, now, d);
    TakeThen(data, i, j);
    SliceOfSlice(v, src, |data|, i, j);
  }

  /** Loads one element into the local buffer, reversed. */
  method SwapOneOut(m: Machine, buf: array<Byte>, at: nat, src: nat, g: nat, ghost e: seq<Byte>, ghost now: seq<Byte>)
    requires m.Valid() && ElementSize(g) && src + g <= |m.mem| && at + g <= buf.Length
    requires m.Cpu()[src..src + g] == e && buf[..] == now
    modifies m, buf
    ensures m.Valid() && |m.mem| == |old(m.mem)| && m.Cpu() == old(m.Cpu())
    ensures buf[..] == Overwrite(now, at, Reversed(e))
  {
    var bytes := LoadElement(m, src, g);
    StoreLocal(buf, at, ReversedWord(bytes), g);
  }

  /** The element loop into the local buffer: k bytes' worth of elements. */
  method SwapOut(m: Machine, buf: array<Byte>, off: nat, src: nat, k: nat, g: nat)
    requires m.Valid() && ElementSize(g) && Whole(k, g) && src + k <= |m.mem| && off + k <= buf.Length
    modifies m, buf
    ensures m.Valid() && |m.mem| == |old(m.mem)| && m.Cpu() == old(m.Cpu())
    ensures buf[..] == Overwrite(old(buf[..]), off, Swapped(old(m.Cpu())[src..src + k], g))
  {
    ghost var was, v := buf[..], m.Cpu();
    ghost var data := v[src..src + k];
    var i := 0;
    while i < k
      invariant i <= k && Whole(i, g) && m.Valid() && |m.mem| == |v| && m.Cpu() == v
      invariant buf[..] == Overwrite(was, off, Swapped(data[..i], g))
    {
      var j, d, s := i + g, off + i, src + i;
      ghost var now := buf[..];
      WholeStep(k, i, g);
      OutTurnSeen(v, was, off, src, data, g, i, j, d, s, now);
      ghost var e := data[i..j];
      SwapOneOut(m, buf, d, s, g, e, now);
      assert buf[..] == Overwrite(now, d, Reversed(e));
      i := j;
    }
    assert data[..k] == data;
  }

  lemma {:induction false} WholeStep(n: nat, i: nat, g: nat)
    requires Whole(n, g) && Whole(i, g) && i < n
    ensures i + g <= n && Whole(i + g, g) && Whole(g, g)
    decreases i
  {
    assert Whole(0, g);
    if i > 0 {
      WholeStep(n - g, i - g, g);
    }
  }

  lemma {:induction false} ReversedAt(e: seq<Byte>, k: nat)
    requires k < |e|
    ensures Reversed(e)[k] == e[|e| - 1 - k]
  {
    if k < |e| - 1 {
      ReversedAt(e[1..], k);
    }
  }

  /** Which byte lands where: byte i of an element's place r, the mirrored one. */
  lemma {:induction false} SwappedHalf(data: seq<Byte>, g: nat, k: nat, r: nat, i: nat, j: nat)
    requires g == 2 && Whole(|data|, g) && r < 2 && i == 2 * k + r < |data| && j == 2 * k + 1 - r
    ensures j < |data| && Swapped(data, g)[i] == data[j]
    decreases k
  {
    if k == 0 {
      ReversedAt(data[..g], r);
    } else {
      SwappedHalf(data[g..], g, k - 1, r, i - g, j - g);
    }
  }

  lemma {:induction false} SwappedWord(data: seq<Byte>, g: nat, k: nat, r: nat, i: nat, j: nat)
    requires g == 4 && Whole(|data|, g) && r < 4 && i == 4 * k + r < |data| && j == 4 * k + 3 - r
    ensures j < |data| && Swapped(data, g)[i] == data[j]
    decreases k
  {
    if k == 0 {
      ReversedAt(data[..g], r);
    } else {
      SwappedWord(data[g..], g, k - 1, r, i - g, j - g);
    }
  }

  /** x is y with the bytes of every halfword swapped. */
  ghost predicate HalvesSwapped(x: seq<Byte>, y: seq<Byte>) {
    && |x| == |y| && |x| % 2 == 0
    && forall i :: 0 <= i < |x| ==> x[i] == if i % 2 == 0 then y[i + 1] else y[i - 1]
  }

  /** x is y with the bytes of every word in reverse. */
  ghost predicate WordsReversed(x: seq<Byte>, y: seq<Byte>) {
    && |x| == |y| && |x| % 4 == 0
    && forall i :: 0 <= i < |x| ==> x[i] == y[i - i % 4 + 3 - i % 4]
  }

  lemma InHalf(i: nat, n: nat)
    requires i < n && n % 2 == 0
    ensures i == 2 * (i / 2) + i % 2 && (i % 2 == 0 || i % 2 == 1)
    ensures i % 2 == 0 ==> i + 1 < n
  {
  }

  lemma InWord(i: nat, n: nat)
    requires i < n && n % 4 == 0
    ensures i == 4 * (i / 4) + i % 4 && 0 <= i % 4 < 4 && i - i % 4 + 3 < n
  {
  }

  lemma Swapped2At(data: seq<Byte>, g: nat, i: nat)
    requires g == 2 && Whole(|data|, g) && |data| % 2 == 0 && i < |data|
    ensures i % 2 == 0 ==> i + 1 < |data| && Swapped(data, g)[i] == data[i + 1]
    ensures i % 2 != 0 ==> Swapped(data, g)[i] == data[i - 1]
  {
    InHalf(i, |data|);
    var k, r := i / 2, i % 2;
    SwappedHalf(data, g, k, r, i, if r == 0 then i + 1 else i - 1);
  }

  lemma Swapped4At(data: seq<Byte>, g: nat, i: nat)
    requires g == 4 && Whole(|data|, g) && |data| % 4 == 0 && i < |data|
    ensures 0 <= i - i % 4 && i - i % 4 + 3 < |data| && Swapped(data, g)[i] == data[i - i % 4 + 3 - i % 4]
  {
    InWord(i, |data|);
    var k, r := i / 4, i % 4;
    SwappedWord(data, g, k, r, i, i - r + 3 - r);
  }

  lemma Swapped2(data: seq<Byte>, g: nat)
    requires g == 2 && Whole(|data|, g) && |data| % 2 == 0
    ensures HalvesSwapped(Swapped(data, g), data)
  {
    forall i | 0 <= i < |data|
      ensures i % 2 == 0 ==> i + 1 < |data| && Swapped(data, g)[i] == data[i + 1]
      ensures i % 2 != 0 ==> i > 0 && Swapped(data, g)[i] == data[i - 1]
    {
      Swapped2At(data, g, i);
    }
  }

  lemma Swapped4(data: seq<Byte>, g: nat)
    requires g == 4 && Whole(|data|, g) && |data| % 4 == 0
    ensures WordsReversed(Swapped(data, g), data)
  {
    forall i | 0 <= i < |data|
      ensures 0 <= i - i % 4 && i - i % 4 + 3 < |data| && Swapped(data, g)[i] == data[i - i % 4 + 3 - i % 4]
    {
      Swapped4At(data, g, i);
    }
  }

  lemma AcceptsWhen(n: nat, kind: nat)
    ensures Accepts(n, kind) <==> kind == 0 || (kind == 1 && n % 2 == 0) || (kind == 2 && n % 4 == 0)
  {
    WholeBytes(n);
    WholeMod(n);
  }

  lemma SwappedAs(data: seq<Byte>, kind: nat)
    requires Accepts(|data|, kind)
    ensures kind == 0 ==> Swapped(data, Element(kind)) == data
    ensures kind == 1 ==> HalvesSwapped(Swapped(data, Element(kind)), data)
    ensures kind == 2 ==> WordsReversed(Swapped(data, Element(kind)), data)
  {
    AcceptsWhen(|data|, kind);
    if kind == 0 {
      SwappedBytes(data);
    } else if kind == 1 {
      Swapped2(data, 2);
    } else {
      Swapped4(data, 4);
    }
  }

  lemma EndianSeen(v: seq<Byte>, w: seq<Byte>, dst: nat, src: nat, n: nat, kind: nat)
    requires dst + n <= |v| && src + n <= |v|
    requires w == if Accepts(n, kind) then Overwrite(v, dst, Swapped(v[src..src + n], Element(kind))) else v
    ensures SameOutside(w, v, dst, n)
    ensures kind == 0 ==> w[dst..dst + n] == v[src..src + n]
    ensures kind == 1 && n % 2 == 0 ==> HalvesSwapped(w[dst..dst + n], v[src..src + n])
    ensures kind == 2 && n % 4 == 0 ==> WordsReversed(w[dst..dst + n], v[src..src + n])
    ensures kind > 2 || (kind == 1 && n % 2 != 0) || (kind == 2 && n % 4 != 0) ==> w == v
  {
    AcceptsWhen(n, kind);
    if Accepts(n, kind) {
      var moved := Swapped(v[src..src + n], Element(kind));
      OverwriteSlice(v, dst, moved);
      OverwriteOutside(v, dst, moved, dst, n);
      SwappedAs(v[src..src + n], kind);
      assert w[dst..dst + n] == moved;
    }
  }

  /** `dma_memcpy_endian`, byte by byte: type 0 copies, type 1 swaps the bytes of
      every halfword and type 2 reverses those of every word, whatever is cached;
      for a bad size or type nothing changes at all. */
  method DmaMemcpyEndian(m: Machine, dst: nat, src: nat, n: nat, kind: nat)
    requires m.Valid() && dst + n <= |m.mem| && src + n <= |m.mem| && Disjoint(dst, src, n)
    modifies m
    ensures m.Valid() && |m.mem| == |old(m.mem)| && SameOutside(m.Cpu(), old(m.Cpu()), dst, n)
    ensures kind == 0 ==> m.Cpu()[dst..dst + n] == old(m.Cpu())[src..src + n]
    ensures kind == 1 && n % 2 == 0 ==> HalvesSwapped(m.Cpu()[dst..dst + n], old(m.Cpu())[src..src + n])
    ensures kind == 2 && n % 4 == 0 ==> WordsReversed(m.Cpu()[dst..dst + n], old(m.Cpu())[src..src + n])
    ensures kind > 2 || (kind == 1 && n % 2 != 0) || (kind == 2 && n % 4 != 0) ==> m.Cpu() == old(m.Cpu())
  {
    ghost var v := m.Cpu();
    SwapElements(m, dst, src, n, kind);
    EndianSeen(v, m.Cpu(), dst, src, n, kind);
  }

  /** The same by elements of 2^kind bytes. */
  method SwapElements(m: Machine, dst: nat, src: nat, n: nat, kind: nat)
    requires m.Valid() && dst + n <= |m.mem| && src + n <= |m.mem| && Disjoint(dst, src, n)
    modifies m
    ensures m.Valid() && |m.mem| == |old(m.mem)|
    ensures m.Cpu() == if Accepts(n, kind)
                       then Overwrite(old(m.Cpu()), dst, Swapped(old(m.Cpu())[src..src + n], Element(kind)))
                       else old(m.Cpu())
  {
    if kind > 2 {
      return;
    }
    var g := Element(kind);
    AcceptsWhen(n, kind);
    if (kind == 1 && n % 2 != 0) || (kind == 2 && n % 4 != 0) {
      return;
    }
    if n <= 64 {
      SwapSmall(m, dst, src, n, g);
      return;
    }
    SwapLarge(m, dst, src, n, g);
  }

  /** The long path: ends swapped by the CPU, middle by the DMA engine. */
  method SwapLarge(m: Machine, dst: nat, src: nat, n: nat, g: nat)
    requires m.Valid() && ElementSize(g) && Whole(n, g) && Whole(32, g) && Whole(64, g) && n > 64
    requires dst + n <= |m.mem| && src + n <= |m.mem| && Disjoint(dst, src, n)
    modifies m
    ensures m.Valid() && |m.mem| == |old(m.mem)|
    ensures m.Cpu() == Overwrite(old(m.Cpu()), dst, Swapped(old(m.Cpu())[src..src + n], g))
  {
    ghost var v := m.Cpu();
    ghost var h, k, t := v[src..src + 32], v[src + 32..src + n - 32], v[src + n - 32..src + n];
    WholeLess(n, 64, g);
    var buf := SwapEnds(m, src, n, g);
    TransferMiddle(m, dst, src, n, g);
    ghost var mid := m.Cpu();
    Assembled(v, mid, dst, n, Swapped(h, g), Swapped(k, g), Swapped(t, g));
    SwappedParts(v, src, n, g);
    WriteEnds(m, dst, n, buf);
    assert m.Cpu() == WithEnds(mid, dst, n, Swapped(h, g), Swapped(t, g));
  }

  /** The two 32-byte ends of the source, swapped into the local buffer. */
  method SwapEnds(m: Machine, src: nat, n: nat, g: nat) returns (buf: array<Byte>)
    requires m.Valid() && ElementSize(g) && Whole(32, g) && n > 64 && src + n <= |m.mem|
    modifies m
    ensures m.Valid() && |m.mem| == |old(m.mem)| && m.Cpu() == old(m.Cpu())
    ensures fresh(buf) && buf.Length == 64
    ensures buf[0..32] == Swapped(m.Cpu()[src..src + 32], g)
    ensures buf[32..64] == Swapped(m.Cpu()[src + n - 32..src + n], g)
  {
    buf := new Byte[64](_ => 0);
    var s2 := src + n - 32;
    ghost var zero, v := buf[..], m.Cpu();
    ghost var h, t := Swapped(v[src..src + 32], g), Swapped(v[s2..s2 + 32], g);
    SwapOut(m, buf, 0, src, 32, g);
    ghost var half := buf[..];
    assert half == Overwrite(zero, 0, h);
    SwapOut(m, buf, 32, s2, 32, g);
    ghost var full := buf[..];
    assert full == Overwrite(half, 32, t);
    BothEnds(zero, half, full, h, t);
    assert buf[0..32] == full[0..32] && buf[32..64] == full[32..64];
  }

  lemma BothEnds(zero: seq<Byte>, half: seq<Byte>, full: seq<Byte>, h: seq<Byte>, t: seq<Byte>)
    requires |zero| == 64 && |h| == |t| == 32
    requires half == Overwrite(zero, 0, h) && full == Overwrite(half, 32, t)
    ensures full[0..32] == h && full[32..64] == t
  {
  }

  /** Offsets 32 and n - 32 are element boundaries, so the ends and the middle
      swap on their own as they do within the whole. */
  lemma SwappedParts(v: seq<Byte>, src: nat, n: nat, g: nat)
    requires n > 64 && Whole(n - 64, g) && Whole(n, g) && Whole(32, g) && src + n <= |v|
    ensures Swapped(v[src..src + 32], g) + Swapped(v[src + 32..src + n - 32], g)
              + Swapped(v[src + n - 32..src + n], g)
         == Swapped(v[src..src + n], g)
  {
    var h, k, t := v[src..src + 32], v[src + 32..src + n - 32], v[src + n - 32..src + n];
    SwappedConcat(h, k, g);
    SwappedConcat(h + k, t, g);
    Parts(v, src, n);
  }
}
