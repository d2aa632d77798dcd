/** Shifts of unbounded integers. */
module Shifts {
  /** m * 2^n */
  function Shl(m: int, n: nat): int {
    if n == 0 then m else 2 * Shl(m, n - 1)
  }

  /** m / 2^n, rounded down */
  function Shr(m: int, n: nat): int {
    if n == 0 then m else Shr(m, n - 1) / 2
  }

  lemma {:induction false} ShlShl(m: int, a: nat, b: nat)
    ensures Shl(Shl(m, a), b) == Shl(m, a + b)
  {
    if b > 0 {
      ShlShl(m, a, b - 1);
    }
  }

  lemma {:induction false} ShlAdd(m: int, k: int, n: nat)
    ensures Shl(m + k, n) == Shl(m, n) + Shl(k, n)
  {
    if n > 0 {
      ShlAdd(m, k, n - 1);
    }
  }

  lemma {:induction false} ShlMonotone(m: int, k: int, n: nat)
    ensures m < k <==> Shl(m, n) < Shl(k, n)
    ensures m == k <==> Shl(m, n) == Shl(k, n)
  {
    if n > 0 {
      ShlMonotone(m, k, n - 1);
    }
  }

  lemma {:induction false} ShlGrows(m: int, a: nat, b: nat)
    requires m >= 0 && a <= b
    ensures 0 <= Shl(m, a) <= Shl(m, b)
  {
    if a < b {
      ShlGrows(m, a, b - 1);
    } else if a > 0 {
      ShlGrows(m, a - 1, a - 1);
    }
  }

  /** Shifting right keeps the quotient, and only the remainder is lost. */
  lemma {:induction false} ShrBracket(m: int, n: nat)
    ensures Shl(Shr(m, n), n) <= m < Shl(Shr(m, n) + 1, n)
    ensures m >= 0 ==> Shr(m, n) >= 0
  {
    if n > 0 {
      ShrBracket(m, n - 1);
      var q := Shr(m, n - 1);
      ShlShl(q / 2, 1, n - 1);
      ShlShl(q / 2 + 1, 1, n - 1);
      assert Shl(q / 2, 1) == 2 * (q / 2);
      assert Shl(q / 2 + 1, 1) == 2 * (q / 2) + 2;
      ShlMonotone(2 * (q / 2), q, n - 1);
      ShlMonotone(2 * (q / 2) + 2, q + 1, n - 1);
    }
  }

  lemma ShrUnique(m: int, n: nat, q: int)
    requires Shl(q, n) <= m < Shl(q + 1, n)
    ensures q == Shr(m, n)
  {
    ShrBracket(m, n);
    ShlMonotone(q, Shr(m, n) + 1, n);
    ShlMonotone(Shr(m, n), q + 1, n);
  }

  lemma ShlBetween(k: int, m: int, n: nat)
    requires Shl(k, n) <= Shl(m, n) < Shl(k + 1, n)
    ensures k == m
  {
    ShlMonotone(m, k, n);
    ShlMonotone(m, k + 1, n);
  }

  lemma ShlBy5(m: int)
    ensures Shl(m, 5) == 0x20 * m
  {
    assert Shl(m, 1) == 2 * Shl(m, 0);
    assert Shl(m, 2) == 2 * Shl(m, 1);
    assert Shl(m, 3) == 2 * Shl(m, 2);
    assert Shl(m, 4) == 2 * Shl(m, 3);
  }

  lemma ShlBy10(m: int)
    ensures Shl(m, 10) == 0x400 * m
  {
    ShlShl(m, 5, 5);
    ShlBy5(m);
    ShlBy5(Shl(m, 5));
  }

  lemma ShlBy13(m: int)
    ensures Shl(m, 13) == 0x2000 * m
  {
    ShlBy10(m);
    assert Shl(m, 11) == 2 * Shl(m, 10);
    assert Shl(m, 12) == 2 * Shl(m, 11);
  }

  lemma ShlBy23(m: int)
    ensures Shl(m, 23) == 0x80_0000 * m
  {
    ShlBy13(m);
    ShlShl(m, 13, 10);
    ShlBy10(Shl(m, 13));
  }

  lemma ShrBy13(m: int)
    ensures Shr(m, 13) == m / 0x2000
  {
    ShlBy13(m / 0x2000);
    ShlBy13(m / 0x2000 + 1);
    ShrUnique(m, 13, m / 0x2000);
  }

  /** The position of the leading one bit. */
  function Log2(i: nat): (k: nat)
    requires i > 0
    ensures Shl(1, k) <= i < Shl(1, k + 1)
  {
    if i < 2 then 0 else Log2(i / 2) + 1
  }

  lemma Log2Below(i: nat, n: nat)
    requires 0 < i < Shl(1, n)
    ensures Log2(i) < n
  {
    if n <= Log2(i) {
      ShlGrows(1, n, Log2(i));
    }
  }
}
