/** Bitwise operations on unsigned machine words, modelled on natural numbers.
    The source masks, merges and shifts 32-bit words; here each operator is
    defined bit by bit, and the lemmas give the arithmetic the masks stand for. */
module Bits {

  const WORD: nat := 0x1_0000_0000
  const HALF: int := 0x8000_0000

  function Pow2(k: nat): (p: nat)
    ensures p > 0
  {
    if k == 0 then 1 else 2 * Pow2(k - 1)
  }

  function And(a: nat, b: nat): nat {
    if a == 0 || b == 0 then 0
    else 2 * And(a / 2, b / 2) + (if a % 2 == 1 && b % 2 == 1 then 1 else 0)
  }

  function Or(a: nat, b: nat): nat {
    if a == 0 then b
    else if b == 0 then a
    else 2 * Or(a / 2, b / 2) + (if a % 2 == 1 || b % 2 == 1 then 1 else 0)
  }

  /** The low k bits of a word. */
  function Low(a: nat, k: nat): (r: nat)
    ensures r <= a && r < Pow2(k)
  {
    if k == 0 then 0 else 2 * Low(a / 2, k - 1) + a % 2
  }

  /** Unsigned 32-bit addition. */
  function Plus(a: nat, b: nat): (r: nat)
    requires a < WORD && b < WORD
    ensures r < WORD
  {
    if a + b < WORD then a + b else a + b - WORD
  }

  /** The value a conversion to `int32_t` gives to an integer. */
  function ToInt32(x: int): (r: int)
    ensures -HALF <= r < HALF
    ensures -HALF <= x < HALF ==> r == x
    ensures HALF <= x < HALF + WORD ==> r == x - WORD
    ensures -HALF - WORD <= x < -HALF ==> r == x + WORD
    decreases if x < 0 then -x else x + 1
  {
    if x >= HALF then ToInt32(x - WORD) else if x < -HALF then ToInt32(x + WORD) else x
  }

  /** It differs from the integer by a multiple of 2^32. */
  lemma {:induction false} ToInt32Wraps(x: int) returns (k: int)
    ensures x == ToInt32(x) + 0x1_0000_0000 * k
    decreases if x < 0 then -x else x + 1
  {
    if x >= HALF {
      k := ToInt32Wraps(x - WORD);
      k := k + 1;
    } else if x < -HALF {
      k := ToInt32Wraps(x + WORD);
      k := k - 1;
    } else {
      k := 0;
    }
  }

  lemma Pow2Values()
    ensures Pow2(4) == 16 && Pow2(5) == 32 && Pow2(8) == 256
    ensures Pow2(16) == 0x1_0000 && Pow2(24) == 0x100_0000 && Pow2(32) == WORD
  {
    assert Pow2(8) == 16 * Pow2(4);
    assert Pow2(12) == 16 * Pow2(8);
    assert Pow2(16) == 16 * Pow2(12);
    assert Pow2(20) == 16 * Pow2(16);
    assert Pow2(24) == 16 * Pow2(20);
    assert Pow2(28) == 16 * Pow2(24);
    assert Pow2(32) == 16 * Pow2(28);
  }

  lemma Quarter(a: nat)
    ensures a % 16 == 4 * (a / 4 % 4) + a % 4
    ensures a / 2 / 2 == a / 4 && 2 * (a / 2 % 2) + a % 2 == a % 4
  {
    Sixteenth(a);
    Halves(a);
  }

  lemma Sixteenth(a: nat)
    ensures a % 16 == 4 * (a / 4 % 4) + a % 4
  {
  }

  lemma Halves(a: nat)
    ensures a / 2 / 2 == a / 4 && 2 * (a / 2 % 2) + a % 2 == a % 4
  {
  }

  lemma Low2(a: nat)
    ensures Low(a, 2) == a % 4
  {
    assert Low(a / 2, 1) == a / 2 % 2;
    Quarter(a);
  }

  lemma Low4(a: nat)
    ensures Low(a, 4) == a % 16
  {
    var h := a / 2;
    Quarter(a);
    Low2(h / 2);
    assert Low(h, 3) == 2 * Low(h / 2, 2) + h % 2;
  }

  lemma Low5(a: nat)
    ensures Low(a, 5) == a % 32
  {
    Low4(a / 2);
    Double16(a);
  }

  lemma Double16(a: nat)
    ensures a % 32 == 2 * (a / 2 % 16) + a % 2
  {
  }

  lemma {:induction false} LowAll(a: nat, k: nat)
    requires a < Pow2(k)
    ensures Low(a, k) == a
  {
    if k > 0 {
      LowAll(a / 2, k - 1);
    }
  }

  lemma {:induction false} Pow2Increasing(j: nat, k: nat)
    requires j <= k
    ensures Pow2(j) <= Pow2(k)
    ensures j < k ==> Pow2(j) < Pow2(k)
  {
    if j < k {
      Pow2Increasing(j, k - 1);
    }
  }

  /** One step of And, by the parity of the mask. */
  lemma AndStep(a: nat, h: nat)
    ensures And(a, 2 * h) == 2 * And(a / 2, h)
    ensures And(a, 2 * h + 1) == 2 * And(a / 2, h) + a % 2
  {
    assert (2 * h) / 2 == h && (2 * h) % 2 == 0;
    assert (2 * h + 1) / 2 == h && (2 * h + 1) % 2 == 1;
  }

  /** Masking with 2^k - 1 keeps the low k bits. */
  lemma {:induction false} AndLowMask(a: nat, k: nat, mask: nat)
    requires mask == Pow2(k) - 1
    ensures And(a, mask) == Low(a, k)
  {
    if k > 0 {
      var h: nat := Pow2(k - 1) - 1;
      AndLowMask(a / 2, k - 1, h);
      AndStep(a, h);
      assert mask == 2 * h + 1;
    }
  }

  /** Masking with 2^w - 2^k clears the low k bits, and no others. */
  lemma {:induction false} AndHighMask(a: nat, k: nat, w: nat, mask: nat)
    requires k <= w && a < Pow2(w) && mask == Pow2(w) - Pow2(k)
    ensures And(a, mask) == a - Low(a, k)
    decreases w
  {
    if k == 0 {
      AndLowMask(a, w, mask);
      LowAll(a, w);
    } else {
      Pow2Increasing(k - 1, w - 1);
      var h: nat := Pow2(w - 1) - Pow2(k - 1);
      assert mask == 2 * h;
      AndHighMask(a / 2, k - 1, w - 1, h);
      AndStep(a, h);
    }
  }

  /** Merging words with no common bit position adds them. */
  lemma {:induction false} OrDisjoint(a: nat, b: nat, k: nat)
    requires Low(a, k) == 0 && b < Pow2(k)
    ensures Or(a, b) == a + b
  {
    if k > 0 {
      OrDisjoint(a / 2, b / 2, k - 1);
    }
  }

  lemma {:induction false} OrCommutes(a: nat, b: nat)
    ensures Or(a, b) == Or(b, a)
    decreases a
  {
    if a > 0 && b > 0 {
      OrCommutes(a / 2, b / 2);
    }
  }

  /** A word shifted left by k has nothing in its low k bits. */
  lemma {:induction false} LowShifted(c: nat, k: nat, shifted: nat)
    requires shifted == c * Pow2(k)
    ensures Low(shifted, k) == 0
  {
    if k > 0 {
      var half := c * Pow2(k - 1);
      Doubled(c, Pow2(k - 1));
      LowShifted(c, k - 1, half);
      LowDouble(half, k);
    }
  }

  lemma Doubled(c: nat, p: nat)
    ensures c * (2 * p) == 2 * (c * p)
  {
  }

  lemma LowDouble(c: nat, k: nat)
    requires k > 0
    ensures Low(2 * c, k) == 2 * Low(c, k - 1)
  {
    assert (2 * c) / 2 == c && (2 * c) % 2 == 0;
  }

  /** Merging a low part with a shifted high part adds them. */
  lemma OrShifted(low: nat, c: nat, k: nat, shifted: nat)
    requires low < Pow2(k) && shifted == c * Pow2(k)
    ensures Or(low, shifted) == low + shifted
  {
    LowShifted(c, k, shifted);
    OrCommutes(low, shifted);
    OrDisjoint(shifted, low, k);
  }
}
