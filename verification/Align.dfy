/** Rounding an address up with the mask trick, in 64-bit arithmetic that wraps. */
module Align {
  import opened Bytes

  /** The number of values of an address or a size. */
  const WORD: nat := Pow2(64)

  /** Bitwise and. */
  function And(x: nat, y: nat): nat {
    if x == 0 || y == 0 then 0 else 2 * And(x / 2, y / 2) + (x % 2) * (y % 2)
  }

  /** Bitwise complement of a word. */
  function Not(x: nat): nat
    requires x < WORD
  {
    WORD - 1 - x
  }

  function Wrap(x: int): nat {
    x % WORD
  }

  function AlignAddr(addr: nat, alignment: nat): nat
    requires 1 <= alignment <= WORD
  {
    And(Wrap(addr + (alignment - 1)), Not(alignment - 1))
  }

  function RoundDown(x: nat, a: nat): (r: nat)
    requires a >= 1
  {
    x - x % a
  }

  /** The next multiple, see RoundUpLeast. */
  function RoundUp(x: nat, a: nat): nat
    requires a >= 1
  {
    RoundDown(x + (a - 1), a)
  }

  ghost predicate Aligned(x: nat, a: nat) {
    a >= 1 && x % a == 0
  }

  lemma DivMod(x: nat, a: nat)
    requires a >= 1
    ensures x == a * (x / a) + x % a && 0 <= x % a < a
  {
  }

  lemma RoundDownMultiple(x: nat, a: nat)
    requires a >= 1
    ensures RoundDown(x, a) == a * (x / a) && RoundDown(x, a) <= x < RoundDown(x, a) + a
    ensures Aligned(RoundDown(x, a), a)
  {
    DivMod(x, a);
    ModUnique(a * (x / a), a, x / a, 0);
  }

  /** RoundUp gives a multiple, not below, and the smallest such. */
  lemma RoundUpLeast(x: nat, a: nat, m: nat)
    requires a >= 1
    ensures Aligned(RoundUp(x, a), a) && x <= RoundUp(x, a) < x + a
    ensures Aligned(m, a) && m >= x ==> RoundUp(x, a) <= m
  {
    RoundDownMultiple(x + (a - 1), a);
    if Aligned(m, a) && m >= x {
      DivMod(m, a);
      var q, d := (x + (a - 1)) / a, m / a;
      if d < q {
        MulStep(a, d, q);
      } else {
        MulStep(a, q, d + 1);
      }
    }
  }

  lemma MulStep(a: nat, d: nat, q: nat)
    requires d < q
    ensures a * (d + 1) <= a * q && a * (d + 1) == a * d + a
  {
  }

  lemma {:induction false} Pow2Bytes(w: nat)
    ensures Pow2(8 * w) == Pow256(w)
  {
    if w > 0 {
      Pow2Bytes(w - 1);
      Pow2Add(8, 8 * (w - 1));
      assert Pow2(8) == 256;
    }
  }

  lemma {:induction false} AndOnes(w: nat, x: nat)
    requires x < Pow2(w)
    ensures And(x, Pow2(w) - 1) == x
  {
    if w > 0 {
      assert (Pow2(w) - 1) / 2 == Pow2(w - 1) - 1;
      AndOnes(w - 1, x / 2);
    }
  }

  /** Masking with all but the low k bits rounds down. */
  lemma {:induction false} AndHigh(w: nat, k: nat, x: nat)
    requires k <= w && x < Pow2(w)
    ensures Pow2(k) <= Pow2(w) && And(x, Pow2(w) - Pow2(k)) == RoundDown(x, Pow2(k))
  {
    hide RoundDown;
    if k == 0 {
      AndOnes(w, x);
      RoundDownOne(x);
    } else {
      AndHigh(w - 1, k - 1, x / 2);
      RoundDownDouble(x, Pow2(k - 1));
      var y := Pow2(w - 1) - Pow2(k - 1);
      assert Pow2(w) - Pow2(k) == 2 * y;
      AndEven(x, y);
    }
  }

  lemma AndEven(x: nat, y: nat)
    ensures And(x, 2 * y) == 2 * And(x / 2, y)
  {
    assert (2 * y) / 2 == y && (2 * y) % 2 == 0;
  }

  lemma RoundDownOne(x: nat)
    ensures RoundDown(x, 1) == x
  {
  }

  lemma RoundDownDouble(x: nat, a: nat)
    requires a >= 1
    ensures RoundDown(x, 2 * a) == 2 * RoundDown(x / 2, a)
  {
    var y := x / 2;
    DivMod(y, a);
    assert 2 * a * (y / a) == 2 * (a * (y / a));
    ModUnique(x, 2 * a, y / a, 2 * (y % a) + x % 2);
  }

  /** The mask trick, wrapping included: the distance to the next multiple comes out exact, even when
      that multiple is the end of the address space and the trick yields 0. */
  lemma AlignAddrExact(addr: nat, k: nat)
    requires addr < WORD && k < 64
    ensures Pow2(k) <= WORD
    ensures RoundUp(addr, Pow2(k)) <= WORD
    ensures AlignAddr(addr, Pow2(k)) == (if RoundUp(addr, Pow2(k)) < WORD then RoundUp(addr, Pow2(k)) else 0)
    ensures Wrap(AlignAddr(addr, Pow2(k)) - addr) == RoundUp(addr, Pow2(k)) - addr
  {
    hide And, RoundDown, Pow2;
    var a, t := Pow2(k), addr + (Pow2(k) - 1);
    AndHigh(64, k, 0);
    RoundDownMultiple(t, a);
    if t < WORD {
      ModUnique(t, WORD, 0, t);
      AndHigh(64, k, t);
      ModUnique(RoundDown(t, a) - addr, WORD, 0, RoundDown(t, a) - addr);
    } else {
      var x := t - WORD;
      ModUnique(t, WORD, 1, x);
      AndHigh(64, k, x);
      RoundDownBelow(x, a);
      Pow2Add(k, 64 - k);
      RoundDownShift(x, a, Pow2(64 - k));
      ModUnique(0 - addr, WORD, -1, WORD - addr);
    }
  }

  lemma RoundDownBelow(x: nat, a: nat)
    requires x < a
    ensures RoundDown(x, a) == 0
  {
    ModUnique(x, a, 0, x);
  }

  lemma RoundDownShift(x: nat, a: nat, q: nat)
    requires x < a
    ensures RoundDown(a * q + x, a) == a * q
  {
    ModUnique(a * q + x, a, q, x);
  }
}
