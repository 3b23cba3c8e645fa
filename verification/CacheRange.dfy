/** The by-address cache maintenance loops of the two cores.
    The C-SKY core writes one command word per 16-byte line into the CIR
    register, eight lines per turn of an unrolled loop; the RISC-V core issues
    one instruction per 32-byte line, stepping from a masked or from a raw
    address.  Each method is proved to issue the trace that a one-line-at-a-time
    cursor gives, and the lemmas say which cache lines such a trace names. */
module CacheRange {
  import opened Bits
  import opened Lines

  const INV_ONE: nat := 2
  const CLR_ONE: nat := 8

  /** The 32-bit words a cursor takes on, advancing by step while size lasts. */
  function Cursor(step: nat, a: nat, size: int): (s: seq<nat>)
    requires 0 < step < WORD && a < WORD
    decreases size
  {
    if size <= 0 then [] else [a] + Cursor(step, Plus(a, step), size - step)
  }

  /** C's remainder, which takes the sign of the dividend. */
  function CRem(a: int, m: nat): int
    requires m > 0
  {
    if a >= 0 then a % m else -((-a) % m)
  }

  function OpSize803(addr: nat, dsize: int): int {
    ToInt32(dsize + CRem(ToInt32(addr), 16))
  }

  function OpSizeRv32(addr: nat, dsize: int): int {
    ToInt32(dsize + addr % 32)
  }

  /** The first command word: the line address merged with the command bits. */
  function Start803(addr: nat, cmd: nat): (w: nat)
    requires addr < WORD && cmd < 16
    ensures w == addr - addr % 16 + cmd < WORD
  {
    Start803Value(addr, cmd);
    Or(And(addr, 0xFFFF_FFF0), cmd)
  }

  function Words803(addr: nat, dsize: int, cmd: nat): seq<nat>
    requires addr < WORD && cmd < 16
  {
    Cursor(16, Start803(addr, cmd), OpSize803(addr, dsize))
  }

  /** The CIR register of the C-SKY core; words records what was written to it. */
  class Cir {
    ghost var words: seq<nat>

    method Write(w: nat)
      modifies this
      ensures words == old(words) + [w]
    {
      words := words + [w];
    }

    /** One turn of the unrolled loop. */
    method WriteEight(first: nat) returns (next: nat)
      requires first < WORD
      modifies this
      ensures words == old(words) + FourWords(first) + FourWords(Plus4(first))
      ensures next == Plus4(Plus4(first))
    {
      next := first;
      Write(next);
      next := Plus(next, 16);
      Write(next);
      next := Plus(next, 16);
      Write(next);
      next := Plus(next, 16);
      Write(next);
      next := Plus(next, 16);
      assert words == old(words) + FourWords(first) && next == Plus4(first);
      Write(next);
      next := Plus(next, 16);
      Write(next);
      next := Plus(next, 16);
      Write(next);
      next := Plus(next, 16);
      Write(next);
      next := Plus(next, 16);
    }

    /** The loop shared by the three range functions, for the command bits cmd. */
    method RangeOp(addr: nat, dsize: int, cmd: nat)
      requires addr < WORD && cmd < 16
      modifies this
      ensures words == old(words) + Words803(addr, dsize, cmd)
    {
      var opSize := OpSize803(addr, dsize);
      var opAddr := Start803(addr, cmd);
      ghost var total := words + Cursor(16, opAddr, opSize);
      while opSize >= 128
        invariant 0 <= opAddr < WORD && words + Cursor(16, opAddr, opSize) == total
      {
        UnrollEight(opAddr, opSize);
        ghost var before, first := words, opAddr;
        opAddr := WriteEight(opAddr);
        assert words + Cursor(16, opAddr, opSize - 128)
            == before + (FourWords(first) + (FourWords(Plus4(first)) + Cursor(16, opAddr, opSize - 128)));
        opSize := opSize - 128;
      }
      while opSize > 0
        invariant 0 <= opAddr < WORD && words + Cursor(16, opAddr, opSize) == total
      {
        Write(opAddr);
        opAddr := Plus(opAddr, 16);
        opSize := opSize - 16;
      }
    }

    method InvalidRange(addr: nat, dsize: int)
      requires addr < WORD
      modifies this
      ensures words == old(words) + Words803(addr, dsize, 2)
    {
      RangeOp(addr, dsize, INV_ONE);
    }

    method CleanRange(addr: nat, dsize: int)
      requires addr < WORD
      modifies this
      ensures words == old(words) + Words803(addr, dsize, 8)
    {
      RangeOp(addr, dsize, CLR_ONE);
    }

    method CleanInvalidRange(addr: nat, dsize: int)
      requires addr < WORD
      modifies this
      ensures words == old(words) + Words803(addr, dsize, 10)
    {
      RangeOp(addr, dsize, Or(CLR_ONE, INV_ONE));
    }
  }

  function FourWords(a: nat): seq<nat>
    requires a < WORD
  {
    [a, Plus(a, 16), Plus(Plus(a, 16), 16), Plus(Plus(Plus(a, 16), 16), 16)]
  }

  function Plus4(a: nat): (r: nat)
    requires a < WORD
    ensures r < WORD
  {
    Plus(Plus(Plus(Plus(a, 16), 16), 16), 16)
  }

  lemma UnrollFour(a: nat, size: int)
    requires size >= 64 && a < WORD
    ensures Cursor(16, a, size) == FourWords(a) + Cursor(16, Plus4(a), size - 64)
  {
    var a1 := Plus(a, 16);
    var a2 := Plus(a1, 16);
    var a3 := Plus(a2, 16);
    assert Cursor(16, a1, size - 16) == [a1] + Cursor(16, a2, size - 32);
    assert Cursor(16, a2, size - 32) == [a2] + Cursor(16, a3, size - 48);
    assert Cursor(16, a3, size - 48) == [a3] + Cursor(16, Plus(a3, 16), size - 64);
  }

  lemma UnrollEight(a: nat, size: int)
    requires size >= 128 && a < WORD
    ensures Cursor(16, a, size)
         == FourWords(a) + (FourWords(Plus4(a)) + Cursor(16, Plus4(Plus4(a)), size - 128))
  {
    UnrollFour(a, size);
    UnrollFour(Plus4(a), size - 64);
  }

  /** The RISC-V core: each range function issues one cache instruction per
      line; ops records the addresses given to it. */
  class Rv32Cache {
    ghost var ops: seq<nat>

    method Issue(a: nat)
      modifies this
      ensures ops == old(ops) + [a]
    {
      ops := ops + [a];
    }

    method RangeOp(start: nat, size: int)
      requires start < WORD
      modifies this
      ensures ops == old(ops) + Cursor(32, start, size)
    {
      var opAddr, opSize := start, size;
      while opSize > 0
        invariant 0 <= opAddr < WORD && ops + Cursor(32, opAddr, opSize) == old(ops) + Cursor(32, start, size)
      {
        Issue(opAddr);
        opAddr := Plus(opAddr, 32);
        opSize := opSize - 32;
      }
    }

    /** Steps from the raw address. */
    method InvalidRange(addr: nat, dsize: int)
      requires addr < WORD
      modifies this
      ensures ops == old(ops) + Cursor(32, addr, OpSizeRv32(addr, dsize))
    {
      RangeOp(addr, OpSizeRv32(addr, dsize));
    }

    /** Steps from the address with its low five bits cleared. */
    method CleanRange(addr: nat, dsize: int)
      requires addr < WORD
      modifies this
      ensures ops == old(ops) + Cursor(32, addr - addr % 32, OpSizeRv32(addr, dsize))
    {
      Mask32(addr);
      RangeOp(And(addr, 0xFFFF_FFE0), OpSizeRv32(addr, dsize));
    }

    /** Steps from the raw address. */
    method CleanInvalidRange(addr: nat, dsize: int)
      requires addr < WORD
      modifies this
      ensures ops == old(ops) + Cursor(32, addr, OpSizeRv32(addr, dsize))
    {
      RangeOp(addr, OpSizeRv32(addr, dsize));
    }
  }

  lemma Mask32(a: nat)
    requires a < WORD
    ensures And(a, 0xFFFF_FFE0) == a - a % 32
  {
    Pow2Values();
    AndHighMask(a, 5, 32, 0xFFFF_FFE0);
    Low5(a);
  }

  lemma Mask16(a: nat)
    requires a < WORD
    ensures And(a, 0xFFFF_FFF0) == a - a % 16
  {
    Pow2Values();
    AndHighMask(a, 4, 32, 0xFFFF_FFF0);
    Low4(a);
  }

  lemma LowBits16(a: nat)
    ensures And(a, 15) == a % 16
  {
    Pow2Values();
    AndLowMask(a, 4, 15);
    Low4(a);
  }

  lemma MergeLow(line: nat, cmd: nat)
    requires line % 16 == 0 && cmd < 16
    ensures Or(line, cmd) == line + cmd
  {
    Pow2Values();
    Low4(line);
    OrDisjoint(line, cmd, 4);
  }

  lemma Start803Value(addr: nat, cmd: nat)
    requires addr < WORD && cmd < 16
    ensures Or(And(addr, 0xFFFF_FFF0), cmd) == addr - addr % 16 + cmd
  {
    Mask16(addr);
    LineOf16(addr);
    MergeLow(addr - addr % 16, cmd);
  }

  lemma LowPart(line: nat, cmd: nat)
    requires line % 16 == 0 && cmd < 16
    ensures (line + cmd) % 16 == cmd
  {
  }

  lemma DecodeWord(line: nat, cmd: nat)
    requires line % 16 == 0 && line < WORD && cmd < 16
    ensures And(line + cmd, 0xFFFF_FFF0) == line && And(line + cmd, 15) == cmd
  {
    var w := line + cmd;
    LowPart(line, cmd);
    Mask16(w);
    LowBits16(w);
  }

  /** The line addresses in a trace of CIR words. */
  function Decode803(words: seq<nat>): (lines: seq<nat>)
    ensures |lines| == |words|
  {
    seq(|words|, k requires 0 <= k < |words| => And(words[k], 0xFFFF_FFF0))
  }

  lemma NextLine(line: nat)
    requires line % 16 == 0 && line < WORD
    ensures (line + 16) % 16 == 0 && line + 16 <= WORD
  {
  }

  lemma {:induction false} CursorAlong(line: nat, size: int, cmd: nat)
    requires line % 16 == 0 && line < WORD && line + size <= WORD && cmd < 16
    ensures var words, lines := Cursor(16, line + cmd, size), Run(16, line, size);
      |words| == |lines|
      && forall k :: 0 <= k < |lines| ==> words[k] == lines[k] + cmd && lines[k] < WORD && lines[k] % 16 == 0
    decreases size
  {
    if size > 0 {
      NextLine(line);
      if size > 16 {
        CursorAlong(line + 16, size - 16, cmd);
      }
    }
  }

  /** The trace steps through the lines one by one, command bits intact. */
  lemma WordsAreLines(line: nat, size: int, cmd: nat)
    requires line % 16 == 0 && line < WORD && line + size <= WORD && cmd < 16
    ensures Decode803(Cursor(16, line + cmd, size)) == Run(16, line, size)
    ensures forall w :: w in Cursor(16, line + cmd, size) ==> And(w, 15) == cmd
  {
    var words, lines := Cursor(16, line + cmd, size), Run(16, line, size);
    CursorAlong(line, size, cmd);
    forall k | 0 <= k < |lines|
      ensures And(words[k], 0xFFFF_FFF0) == lines[k] && And(words[k], 15) == cmd
    {
      DecodeWord(lines[k], cmd);
    }
  }

  /** The guard under which the C-SKY range functions name the right lines: the
      remainder is not taken of a negative address, and nothing wraps.  An empty
      range must not be rounded up to a line. */
  predicate Names803(addr: nat, dsize: int) {
    if addr < HALF || addr % 16 == 0 then
      if dsize <= 0 then dsize + addr % 16 <= 0 else dsize + addr % 16 < HALF
    else
      dsize <= 0 && dsize + addr % 16 >= 16 - HALF
  }

  predicate NamesRv32(addr: nat, dsize: int) {
    if dsize <= 0 then dsize + addr % 32 <= 0 else dsize + addr % 32 < HALF
  }

  lemma CRemValue(addr: nat)
    requires addr < WORD
    ensures CRem(ToInt32(addr), 16) == if addr < HALF || addr % 16 == 0 then addr % 16 else addr % 16 - 16
  {
    if addr >= HALF {
      NegRem(addr);
      assert ToInt32(addr) == -(WORD - addr);
    }
  }

  lemma NegRem(addr: nat)
    requires addr < WORD
    ensures (WORD - addr) % 16 == if addr % 16 == 0 then 0 else 16 - addr % 16
  {
    var q, r := addr / 16, addr % 16;
    assert WORD - addr == 16 * (0x1000_0000 - q) - r;
  }

  lemma OpSize803Value(addr: nat, dsize: int)
    requires addr < WORD && -HALF <= dsize < HALF
    ensures OpSize803(addr, dsize)
         == ToInt32(if addr < HALF || addr % 16 == 0 then dsize + addr % 16 else dsize + addr % 16 - 16)
  {
    CRemValue(addr);
  }

  /** The operation size comes out positive exactly for the ranges named here. */
  lemma OpSize803Sign(addr: nat, dsize: int)
    requires addr < WORD && -HALF <= dsize <= 0
    ensures OpSize803(addr, dsize) <= 0 <==> Names803(addr, dsize)
  {
    OpSize803Value(addr, dsize);
  }

  /** The lines that the words name, by the operation size. */
  lemma Decoded803(addr: nat, dsize: int, cmd: nat)
    requires addr < WORD && cmd < 16 && Base(addr, 16) + OpSize803(addr, dsize) <= WORD
    ensures Decode803(Words803(addr, dsize, cmd)) == Run(16, Base(addr, 16), OpSize803(addr, dsize))
    ensures forall w :: w in Words803(addr, dsize, cmd) ==> And(w, 15) == cmd
  {
    OwnLine(addr);
    AtOwnLine(addr, dsize, cmd);
    WordsAreLines(Base(addr, 16), OpSize803(addr, dsize), cmd);
  }

  lemma AtOwnLine(addr: nat, dsize: int, cmd: nat)
    requires addr < WORD && cmd < 16 && Base(addr, 16) + cmd < WORD
    ensures Words803(addr, dsize, cmd) == Cursor(16, Base(addr, 16) + cmd, OpSize803(addr, dsize))
  {
    OwnLine(addr);
  }

  lemma OwnLine(addr: nat)
    requires addr < WORD
    ensures Base(addr, 16) == addr - addr % 16 && Base(addr, 16) % 16 == 0 && Base(addr, 16) + 16 <= WORD
  {
    Base16(addr);
    LineOf16(addr);
    NextLine(Base(addr, 16));
  }

  lemma UpperHalfOp(addr: nat, dsize: int)
    requires HALF <= addr < WORD && addr % 16 != 0 && 0 < dsize < HALF
    ensures OpSize803(addr, dsize) == dsize + (addr - Base(addr, 16)) - 16 && Base(addr, 16) < addr
  {
    OpSize803Value(addr, dsize);
    Base16(addr);
  }

  /** An unaligned range in the upper half of the address space loses its last
      line and no other: the signed remainder comes out negative. */
  lemma UpperHalfMissesLast(addr: nat, dsize: int, cmd: nat) returns (exact: seq<nat>)
    requires HALF <= addr < WORD && addr % 16 != 0 && cmd < 16
    requires 0 < dsize < HALF && addr + dsize <= WORD
    ensures exact != [] && ExactLines(exact, 16, addr, dsize)
    ensures Decode803(Words803(addr, dsize, cmd)) == exact[..|exact| - 1]
  {
    UpperHalfOp(addr, dsize);
    Decoded803(addr, dsize, cmd);
    exact := AllButLast(Base(addr, 16), addr, dsize);
  }

  lemma AllButLast(base: nat, addr: nat, dsize: int) returns (exact: seq<nat>)
    requires base == Base(addr, 16) && dsize > 0
    ensures exact != [] && ExactLines(exact, 16, addr, dsize)
    ensures Run(16, base, dsize + (addr - base) - 16) == exact[..|exact| - 1]
  {
    exact := Run(16, base, dsize + (addr - base));
    RunExact(16, addr, dsize);
    RunLast(16, base, dsize + (addr - base));
  }

  lemma LineOf16(addr: nat)
    ensures (addr - addr % 16) % 16 == 0
  {
  }

  /** Where Names803 fails some line is missed or one too many is named. */
  lemma Unnamed803(addr: nat, dsize: int, cmd: nat)
    requires addr < WORD && cmd < 16
    requires -HALF <= dsize < HALF && addr + dsize <= WORD && !Names803(addr, dsize)
    ensures !ExactLines(Decode803(Words803(addr, dsize, cmd)), 16, addr, dsize)
  {
    var lines := Decode803(Words803(addr, dsize, cmd));
    if dsize <= 0 {
      OpSize803Sign(addr, dsize);
      assert lines[0] in lines && !Meets(lines[0], 16, addr, dsize);
    } else if addr >= HALF && addr % 16 != 0 {
      var exact := UpperHalfMissesLast(addr, dsize, cmd);
      var last := exact[|exact| - 1];
      assert last in exact && last !in lines;
    } else {
      OpSize803Value(addr, dsize);
      OwnLineMeets(16, addr, dsize);
      assert Base(addr, 16) !in lines;
    }
  }

  lemma NamedOp(addr: nat, dsize: int)
    requires addr < WORD && 0 < dsize < HALF && Names803(addr, dsize)
    ensures OpSize803(addr, dsize) == dsize + (addr - Base(addr, 16))
  {
    OpSize803Value(addr, dsize);
    Base16(addr);
  }

  lemma Named803(addr: nat, dsize: int, cmd: nat)
    requires addr < WORD && cmd < 16
    requires 0 < dsize < HALF && addr + dsize <= WORD && Names803(addr, dsize)
    ensures ExactLines(Decode803(Words803(addr, dsize, cmd)), 16, addr, dsize)
    ensures forall w :: w in Words803(addr, dsize, cmd) ==> And(w, 15) == cmd
  {
    NamedOp(addr, dsize);
    Decoded803(addr, dsize, cmd);
    RunExact(16, addr, dsize);
  }

  /** The C-SKY range functions name exactly the lines meeting
      [addr, addr+dsize), in order and each once, precisely under Names803; the
      command bits are intact in every word they then write. */
  lemma Range803Exact(addr: nat, dsize: int, cmd: nat)
    requires addr < WORD && cmd < 16
    requires -HALF <= dsize < HALF && addr + dsize <= WORD
    ensures ExactLines(Decode803(Words803(addr, dsize, cmd)), 16, addr, dsize) <==> Names803(addr, dsize)
    ensures Names803(addr, dsize) ==> forall w :: w in Words803(addr, dsize, cmd) ==> And(w, 15) == cmd
  {
    if !Names803(addr, dsize) {
      Unnamed803(addr, dsize, cmd);
    } else if dsize > 0 {
      Named803(addr, dsize, cmd);
    } else {
      OpSize803Sign(addr, dsize);
    }
  }

  /** Stepping from the raw address names, step for step, the lines that
      stepping from the masked one does. */
  lemma {:induction false} Rv32RawIsMasked(addr: nat, op: int)
    requires addr < WORD
    ensures var raw, masked := Cursor(32, addr, op), Cursor(32, addr - addr % 32, op);
      |raw| == |masked| && forall k :: 0 <= k < |raw| ==> masked[k] == raw[k] - raw[k] % 32
    decreases op
  {
    if op > 0 {
      var raw, masked := Cursor(32, addr, op), Cursor(32, addr - addr % 32, op);
      var raw', masked' := Cursor(32, Plus(addr, 32), op - 32), Cursor(32, Plus(addr - addr % 32, 32), op - 32);
      assert Plus(addr - addr % 32, 32) == Plus(addr, 32) - Plus(addr, 32) % 32;
      Rv32RawIsMasked(Plus(addr, 32), op - 32);
      assert forall k :: 0 < k < |raw| ==> raw[k] == raw'[k - 1] && masked[k] == masked'[k - 1];
    }
  }

  lemma {:induction false} CursorIsRun(step: nat, a: nat, size: int)
    requires 0 < step < WORD && a < WORD && a + size <= WORD
    ensures Cursor(step, a, size) == Run(step, a, size)
    decreases size
  {
    if size > step {
      CursorIsRun(step, a + step, size - step);
    }
  }

  /** The RISC-V range functions name exactly the lines meeting the range
      precisely under NamesRv32, in the upper half of the address space too. */
  lemma RangeRv32Exact(addr: nat, dsize: int)
    requires addr < WORD
    requires -HALF <= dsize < HALF && addr + dsize <= WORD
    ensures ExactLines(Cursor(32, addr - addr % 32, OpSizeRv32(addr, dsize)), 32, addr, dsize)
        <==> NamesRv32(addr, dsize)
  {
    var op, line := OpSizeRv32(addr, dsize), addr - addr % 32;
    var lines := Cursor(32, line, op);
    Base32(addr);
    if dsize <= 0 {
      if op > 0 {
        assert lines[0] in lines && !Meets(lines[0], 32, addr, dsize);
      }
    } else if NamesRv32(addr, dsize) {
      CursorIsRun(32, line, op);
      RunExact(32, addr, dsize);
    } else {
      OwnLineMeets(32, addr, dsize);
      assert line !in lines;
    }
  }
}
