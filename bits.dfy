// Machine-word arithmetic on unbounded naturals.
//
// A `usize` of the target is a natural number below 2^width.  The bitwise
// operators the extent codec uses (`&`, `|`, `<<`, `>>`) are defined here on
// naturals, bit by bit, together with the facts the codec needs about masks
// and shifts.

module Bits {

  /** 2^k. */
  function Pow2(k: nat): (r: nat)
    ensures r >= 1
  {
    if k == 0 then 1 else 2 * Pow2(k - 1)
  }

  lemma {:induction false} Pow2Add(a: nat, b: nat)
    ensures Pow2(a + b) == Pow2(a) * Pow2(b)
  {
    if a > 0 {
      Pow2Add(a - 1, b);
      assert Pow2(a + b) == 2 * Pow2(a - 1 + b);
    }
  }

  lemma {:induction false} Pow2Mono(k: nat, n: nat)
    requires k <= n
    ensures Pow2(k) <= Pow2(n)
  {
    if k < n { Pow2Mono(k, n - 1); }
  }

  /** The two powers the 64-bit codec works with, as literals. */
  lemma Pow2Values()
    ensures Pow2(32) == 0x1_0000_0000
    ensures Pow2(64) == 0x1_0000_0000_0000_0000
  {
    assert Pow2(2) == 4;
    assert Pow2(4) == 16;
    assert Pow2(8) == 256 by { Pow2Add(4, 4); }
    assert Pow2(16) == 0x1_0000 by { Pow2Add(8, 8); }
    assert Pow2(32) == 0x1_0000_0000 by { Pow2Add(16, 16); }
    Pow2Add(32, 32);
  }

  /** Bitwise `a & b`. */
  function And(a: nat, b: nat): nat
  {
    if a == 0 || b == 0 then 0
    else 2 * And(a / 2, b / 2) + (if a % 2 == 1 && b % 2 == 1 then 1 else 0)
  }

  /** Bitwise `a | b`. */
  function Or(a: nat, b: nat): nat
  {
    if a == 0 then b
    else if b == 0 then a
    else 2 * Or(a / 2, b / 2) + (if a % 2 == 1 || b % 2 == 1 then 1 else 0)
  }

  /** `x << s` on a word of `width` bits: bits shifted past the top are lost. */
  function Shl(x: nat, s: nat, width: nat): nat
  {
    (x * Pow2(s)) % Pow2(width)
  }

  /** `x >> s`. */
  function Shr(x: nat, s: nat): nat
  {
    Quotient(x, Pow2(s))
  }

  /** Division of naturals. */
  function Quotient(x: nat, d: nat): nat
    requires d >= 1
  {
    x / d
  }

  lemma AndStep(a: nat, b: nat)
    ensures And(a, b) == 2 * And(a / 2, b / 2) + (if a % 2 == 1 && b % 2 == 1 then 1 else 0)
  {
  }

  lemma MulAtLeast(a: int, d: nat)
    requires a >= 1
    ensures a * d >= d
  {
  }

  lemma MulSub(a: int, b: int, d: int)
    ensures (a - b) * d == a * d - b * d
  {
  }

  /** Quotient and remainder are determined by `w == t * d + rem` with `rem < d`. */
  lemma DivModUnique(w: nat, d: nat, t: nat, rem: nat)
    requires d > 0 && w == t * d + rem && rem < d
    ensures w % d == rem && w / d == t
  {
    var q, r := w / d, w % d;
    assert q * d + r == t * d + rem;
    MulSub(q, t, d);
    MulSub(t, q, d);
    if q > t { MulAtLeast(q - t, d); } else if q < t { MulAtLeast(t - q, d); }
  }

  lemma HalfMod(w: nat, k: nat)
    requires k > 0
    ensures w % Pow2(k) == 2 * ((w / 2) % Pow2(k - 1)) + w % 2
  {
    var P := Pow2(k - 1);
    var q, r := w / 2, w % 2;
    var t, s := q / P, q % P;
    assert w == t * (2 * P) + (2 * s + r);
    DivModUnique(w, 2 * P, t, 2 * s + r);
  }

  /** Masking with k low one-bits keeps the remainder modulo 2^k. */
  lemma {:induction false} AndLowMask(w: nat, k: nat)
    ensures And(w, Pow2(k) - 1) == w % Pow2(k)
  {
    if k == 0 {
    } else if w == 0 {
    } else {
      AndStep(w, Pow2(k) - 1);
      assert (Pow2(k) - 1) / 2 == Pow2(k - 1) - 1;
      AndLowMask(w / 2, k - 1);
      HalfMod(w, k);
    }
  }

  /** Masking with the one-bits from position k up to n keeps exactly those bits of w. */
  lemma {:induction false} AndBand(w: nat, n: nat, k: nat, m: nat)
    requires k <= n && m + Pow2(k) == Pow2(n)
    ensures And(w, m) == w % Pow2(n) - w % Pow2(k)
  {
    if k == 0 {
      AndLowMask(w, n);
    } else {
      AndStep(w, m);
      Pow2Mono(k - 1, n - 1);
      AndBand(w / 2, n - 1, k - 1, m / 2);
      HalfMod(w, n);
      HalfMod(w, k);
    }
  }

  /** `|` of a value shifted past k bits and a value below 2^k is their sum. */
  lemma {:induction false} OrDisjoint(x: nat, y: nat, k: nat)
    requires y < Pow2(k)
    ensures Or(x * Pow2(k), y) == x * Pow2(k) + y
  {
    if k == 0 {
    } else {
      var a := x * Pow2(k);
      assert a == 2 * (x * Pow2(k - 1));
      if x != 0 && y != 0 { OrDisjoint(x, y / 2, k - 1); }
    }
  }

  /** `|` of two values of k bits has k bits. */
  lemma {:induction false} OrBound(a: nat, b: nat, k: nat)
    requires a < Pow2(k) && b < Pow2(k)
    ensures Or(a, b) < Pow2(k)
  {
    if a != 0 && b != 0 {
      OrBound(a / 2, b / 2, k - 1);
    }
  }
}
