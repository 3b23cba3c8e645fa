/** Cache lines of L bytes: which line holds a byte, and which lines meet a range. */
module Lines {

  /** The address of the line that holds byte a, counted up line by line. */
  function Base(a: nat, L: nat): (b: nat)
    requires L > 0
    ensures b <= a < b + L
  {
    if a < L then 0 else L + Base(a - L, L)
  }

  predicate Aligned(b: nat, L: nat)
    requires L > 0
  {
    Base(b, L) == b
  }

  /** The line addresses from b on, while size lasts. */
  function Run(L: nat, b: nat, size: int): seq<nat>
    requires L > 0
    decreases size
  {
    if size <= 0 then [] else [b] + Run(L, b + L, size - L)
  }

  lemma {:induction false} BaseUnique(a: nat, b: nat, L: nat)
    requires L > 0 && Aligned(b, L) && b <= a < b + L
    ensures Base(a, L) == b
    decreases b
  {
    if b >= L {
      BaseUnique(a - L, b - L, L);
    }
  }

  lemma {:induction false} BaseAligned(a: nat, L: nat)
    requires L > 0
    ensures Aligned(Base(a, L), L)
    decreases a
  {
    if a >= L {
      BaseAligned(a - L, L);
    }
  }

  /** It is a multiple of the line size. */
  lemma {:induction false} BaseMultiple(a: nat, L: nat) returns (k: nat)
    requires L > 0
    ensures Base(a, L) == k * L
    decreases a
  {
    if a < L {
      k := 0;
    } else {
      var q := BaseMultiple(a - L, L);
      k := q + 1;
      assert k * L == q * L + L;
    }
  }

  lemma {:induction false} Base16(a: nat)
    ensures Base(a, 16) == a - a % 16
  {
    if a >= 16 {
      Base16(a - 16);
    }
  }

  lemma {:induction false} Base32(a: nat)
    ensures Base(a, 32) == a - a % 32
  {
    if a >= 32 {
      Base32(a - 32);
    }
  }

  /** Halving the line size keeps alignment. */
  lemma {:induction false} AlignedHalf(b: nat, L: nat)
    requires L > 0 && Aligned(b, 2 * L)
    ensures Aligned(b, L)
    decreases b
  {
    if b >= 2 * L {
      AlignedHalf(b - 2 * L, L);
    }
  }

  /** No line straddles an aligned address. */
  lemma BaseAbove(a: nat, lo: nat, L: nat)
    requires L > 0 && Aligned(lo, L) && lo <= a
    ensures lo <= Base(a, L)
  {
    if Base(a, L) < lo {
      BaseAligned(a, L);
      BaseUnique(lo, Base(a, L), L);
    }
  }

  lemma LinesDisjoint(b: nat, c: nat, L: nat)
    requires L > 0 && Aligned(b, L) && Aligned(c, L)
    ensures b == c || b + L <= c || c + L <= b
  {
    if b <= c < b + L {
      BaseUnique(c, b, L);
    }
    if c <= b < c + L {
      BaseUnique(b, c, L);
    }
  }

  /** Line b holds a byte of [addr, addr+dsize). */
  predicate Meets(b: nat, L: nat, addr: nat, dsize: int)
    requires L > 0
  {
    Aligned(b, L) && dsize > 0 && b < addr + dsize && addr < b + L
  }

  /** The lines that meet [addr, addr+dsize), in ascending order, hence each
      once, and no other line. */
  ghost predicate ExactLines(lines: seq<nat>, L: nat, addr: nat, dsize: int)
    requires L > 0
  {
    && (forall i, j :: 0 <= i < j < |lines| ==> lines[i] < lines[j])
    && (forall b: nat :: b in lines <==> Meets(b, L, addr, dsize))
  }

  lemma {:induction false} RunMembers(L: nat, b: nat, size: int, x: nat)
    requires L > 0 && Aligned(b, L)
    ensures x in Run(L, b, size) <==> Aligned(x, L) && b <= x < b + size
    decreases size
  {
    if size > 0 {
      RunMembers(L, b + L, size - L, x);
      if Aligned(x, L) && b <= x {
        LinesDisjoint(b, x, L);
      }
    }
  }

  lemma {:induction false} RunAbove(L: nat, b: nat, size: int, i: nat)
    requires L > 0 && i < |Run(L, b, size)|
    ensures b <= Run(L, b, size)[i]
    decreases i
  {
    if i > 0 {
      RunAbove(L, b + L, size - L, i - 1);
    }
  }

  lemma {:induction false} RunAscends(L: nat, b: nat, size: int, i: nat, j: nat)
    requires L > 0 && i < j < |Run(L, b, size)|
    ensures Run(L, b, size)[i] < Run(L, b, size)[j]
    decreases i
  {
    if i == 0 {
      RunAbove(L, b + L, size - L, j - 1);
    } else {
      RunAscends(L, b + L, size - L, i - 1, j - 1);
    }
  }

  /** One line less covers all of a run but its last line. */
  lemma {:induction false} RunLast(L: nat, b: nat, size: int)
    requires L > 0 && size > 0
    ensures var r := Run(L, b, size); r != [] && Run(L, b, size - L) == r[..|r| - 1]
    decreases size
  {
    if size > L {
      RunLast(L, b + L, size - L);
    }
  }

  /** The run from addr's own line through its last byte is exact. */
  lemma RunExact(L: nat, addr: nat, dsize: int)
    requires L > 0 && dsize > 0
    ensures ExactLines(Run(L, Base(addr, L), dsize + (addr - Base(addr, L))), L, addr, dsize)
  {
    var base := Base(addr, L);
    var size := dsize + (addr - base);
    BaseAligned(addr, L);
    forall i, j | 0 <= i < j < |Run(L, base, size)|
      ensures Run(L, base, size)[i] < Run(L, base, size)[j]
    {
      RunAscends(L, base, size, i, j);
    }
    forall b: nat
      ensures b in Run(L, base, size) <==> Meets(b, L, addr, dsize)
    {
      RunMembers(L, base, size, b);
      if Aligned(b, L) {
        LinesDisjoint(b, base, L);
      }
    }
  }

  lemma OwnLineMeets(L: nat, addr: nat, dsize: int)
    requires L > 0 && dsize > 0
    ensures Meets(Base(addr, L), L, addr, dsize)
  {
    BaseAligned(addr, L);
  }
}
