/**
 bits.h and the alignment expression of arena.h: bit operations on 64-bit words, as arithmetic.
 */
module Bits {
  const WORD: nat := 64

  function Pow2(k: nat): (r: nat)
    ensures r > 0
  {
    if k == 0 then 1 else 2 * Pow2(k - 1)
  }

  /** Bitwise and. */
  function And(x: nat, y: nat): nat {
    if x == 0 || y == 0 then 0 else 2 * And(x / 2, y / 2) + if x % 2 == 1 && y % 2 == 1 then 1 else 0
  }

  /** Bitwise complement of a 64-bit word. */
  function Not(x: nat): nat
    requires x < Pow2(WORD)
  {
    Pow2(WORD) - 1 - x
  }

  /** Arena::Align: (n + m - 1) & ~(m - 1). */
  function Align(n: nat, m: nat): nat
    requires 0 < m <= Pow2(WORD)
  {
    And(n + m - 1, Not(m - 1))
  }

  lemma {:induction false} Pow2Monotone(a: nat, b: nat)
    requires a <= b
    ensures Pow2(a) <= Pow2(b)
    decreases b
  {
    if a < b { Pow2Monotone(a, b - 1); }
  }

  lemma {:induction false} Pow2Sum(a: nat, b: nat)
    ensures Pow2(a + b) == Pow2(a) * Pow2(b)
  {
    if a > 0 {
      Pow2Sum(a - 1, b);
      assert Pow2(a) * Pow2(b) == 2 * (Pow2(a - 1) * Pow2(b));
    }
  }

  lemma {:induction false} AndOnes(x: nat, w: nat)
    requires x < Pow2(w)
    ensures And(x, Pow2(w) - 1) == x
    decreases w
  {
    if w > 0 && x > 0 {
      var mask := Pow2(w) - 1;
      var half := Pow2(w - 1) - 1;
      assert mask == 2 * half + 1;
      assert mask / 2 == half && mask % 2 == 1;
      assert x / 2 < Pow2(w - 1);
      AndOnes(x / 2, w - 1);
      hide Pow2;
      assert And(x, mask) == 2 * And(x / 2, half) + if x % 2 == 1 then 1 else 0;
    }
  }

  lemma DivModUnique(x: nat, d: nat, q: nat, r: nat)
    requires r < d && x == q * d + r
    ensures x / d == q && x % d == r
  {
    assert x == (x / d) * d + x % d;
    if x / d < q {
      MulLeq(x / d + 1, q, d);
    } else if q < x / d {
      MulLeq(q + 1, x / d, d);
    }
  }

  lemma MulLeq(a: nat, b: nat, c: nat)
    requires a <= b
    ensures a * c <= b * c
  {
  }

  lemma ModDouble(x: nat, p: nat)
    requires p > 0
    ensures x % (2 * p) == 2 * ((x / 2) % p) + x % 2
  {
    var q, r := (x / 2) / p, (x / 2) % p;
    assert x / 2 == q * p + r;
    assert x == 2 * (q * p + r) + x % 2;
    assert 2 * (q * p) == q * (2 * p);
    DivModUnique(x, 2 * p, q, 2 * r + x % 2);
  }

  /** Masking with w ones of which the lowest k are cleared rounds down to a multiple of 2^k. */
  lemma {:induction false} ClearLow(x: nat, w: nat, k: nat)
    requires k <= w && x < Pow2(w)
    ensures Pow2(k) <= Pow2(w) && And(x, Pow2(w) - Pow2(k)) == x - x % Pow2(k)
    decreases k
  {
    Pow2Monotone(k, w);
    if k == 0 {
      AndOnes(x, w);
    } else {
      ClearLow(x / 2, w - 1, k - 1);
      ModDouble(x, Pow2(k - 1));
      var mask := Pow2(w) - Pow2(k);
      assert mask / 2 == Pow2(w - 1) - Pow2(k - 1) && mask % 2 == 0;
      if mask == 0 {
        assert And(x / 2, mask / 2) == 0;
      }
    }
  }

  lemma RoundUp(n: nat, m: nat)
    requires m > 0
    ensures var x := n + m - 1; var r := x - x % m;
            n <= r < n + m && r % m == 0 && forall q: nat :: q % m == 0 && n <= q ==> r <= q
  {
    var x := n + m - 1;
    var d := x / m;
    var r := d * m;
    assert x == d * m + x % m;
    DivModUnique(r, m, d, 0);
    forall q: nat | q % m == 0 && n <= q ensures r <= q {
      var e := q / m;
      assert q == e * m;
      assert (e + 1) * m == e * m + m;
      if e < d { MulLeq(e + 1, d, m); } else { MulLeq(d, e, m); }
    }
  }

  /** Align is the least multiple of a power of two that is not below n. */
  lemma AlignIsLeastMultiple(n: nat, k: nat)
    requires k <= WORD && n + Pow2(k) - 1 < Pow2(WORD)
    ensures Pow2(k) <= Pow2(WORD)
    ensures var m := Pow2(k); var r := Align(n, m);
            && n <= r < n + m && r % m == 0
            && forall q: nat :: q % m == 0 && n <= q ==> r <= q
  {
    hide Pow2, And;
    Pow2Monotone(k, WORD);
    ClearLow(n + Pow2(k) - 1, WORD, k);
    assert Not(Pow2(k) - 1) == Pow2(WORD) - Pow2(k);
    RoundUp(n, Pow2(k));
  }

  lemma AlignOne(n: nat)
    requires n < Pow2(WORD)
    ensures Align(n, 1) == n
  {
    AndOnes(n, WORD);
  }

  /** The position of the highest set bit, counted from one: 64 - clz. */
  function BitLen(x: nat): nat { if x == 0 then 0 else 1 + BitLen(x / 2) }

  lemma {:induction false} BitLenBounds(x: nat)
    ensures x < Pow2(BitLen(x)) && (x > 0 ==> Pow2(BitLen(x) - 1) <= x)
  {
    if x > 0 { BitLenBounds(x / 2); }
  }

  /** __builtin_clzll. */
  function Clz(x: nat): nat
    requires 0 < x < Pow2(WORD)
  {
    var l := BitLen(x);
    if l <= WORD then WORD - l else 0
  }

  lemma BitLenFits(x: nat)
    requires 0 < x < Pow2(WORD)
    ensures BitLen(x) <= WORD
  {
    hide Pow2;
    BitLenBounds(x);
    if BitLen(x) > WORD { Pow2Monotone(WORD, BitLen(x) - 1); }
  }

  /** NextPow2: (~0 >> clz(n - 1)) + 1. */
  function NextPow2(n: nat): nat
    requires n < Pow2(WORD)
  {
    if n < 2 then 1 else (Pow2(WORD) - 1) / Pow2(Clz(n - 1)) + 1
  }

  lemma OnesShifted(a: nat, b: nat)
    ensures (Pow2(a + b) - 1) / Pow2(b) == Pow2(a) - 1
  {
    hide Pow2;
    Pow2Sum(a, b);
    var p, q := Pow2(a), Pow2(b);
    assert p * q - 1 == (p - 1) * q + (q - 1);
    DivModUnique(p * q - 1, q, p - 1, q - 1);
  }

  /** NextPow2 is the least power of two that is not below n. */
  lemma NextPow2IsLeast(n: nat) returns (k: nat)
    requires n <= Pow2(WORD - 1)
    ensures Pow2(WORD - 1) < Pow2(WORD) && NextPow2(n) == Pow2(k) && n <= Pow2(k)
    ensures forall j :: n <= Pow2(j) ==> Pow2(k) <= Pow2(j)
  {
    hide Pow2, BitLen, And;
    assert Pow2(0) == 1 && Pow2(WORD - 1) < Pow2(WORD) by { PowFacts(); }
    if n < 2 {
      k := 0;
      forall j | n <= Pow2(j) ensures Pow2(0) <= Pow2(j) {}
    } else {
      k := BitLen(n - 1);
      BitLenBounds(n - 1);
      BitLenFits(n - 1);
      OnesShifted(k, Clz(n - 1));
      forall j | n <= Pow2(j) ensures Pow2(k) <= Pow2(j) {
        SmallerPower(n, k, j);
      }
    }
  }

  lemma SmallerPower(n: nat, k: nat, j: nat)
    requires n <= Pow2(j) && (k > 0 ==> Pow2(k - 1) < n)
    ensures Pow2(k) <= Pow2(j)
  {
    hide Pow2;
    if j < k { Pow2Monotone(j, k - 1); } else { Pow2Monotone(k, j); }
  }

  lemma PowFacts()
    ensures Pow2(0) == 1 && Pow2(WORD - 1) < Pow2(WORD)
  {
  }

  lemma NextPow2AfterPower(j: nat)
    requires j + 1 < WORD
    ensures Pow2(j) + 1 <= Pow2(WORD - 1) < Pow2(WORD) && NextPow2(Pow2(j) + 1) == Pow2(j + 1)
  {
    hide Pow2;
    Pow2Monotone(j + 1, WORD - 1);
    Doubles(j);
    PowFacts();
    var k := NextPow2IsLeast(Pow2(j) + 1);
    assert Pow2(k) <= Pow2(j + 1);
    if k <= j { Pow2Monotone(k, j); } else { Pow2Monotone(j + 1, k); }
  }

  lemma Doubles(j: nat)
    ensures Pow2(j + 1) == 2 * Pow2(j)
  {
  }
}
