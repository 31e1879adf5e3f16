/** Facts of nonlinear arithmetic. */
module Arithmetic {

  lemma {:induction false} MulLe(a: int, b: int, c: int)
    requires a <= b && 0 <= c
    ensures a * c <= b * c
  {
  }

  lemma {:induction false} DivLe(x: int, c: int)
    requires x >= 0 && c > 0
    ensures 0 <= x / c <= x
  {
    MulLe(1, c, x / c);
  }

  lemma {:induction false} ModUnique(n: int, d: int, q: int, r: int)
    requires d > 0 && n == q * d + r && 0 <= r < d
    ensures n / d == q && n % d == r
  {
    var e := n / d - q;
    assert n == (n / d) * d + n % d;
    assert e * d == r - n % d;
    if e >= 1 {
      MulLe(1, e, d);
      assert false;
    }
    if e <= -1 {
      MulLe(e, -1, d);
      assert false;
    }
  }

  function Pow2(n: nat): (p: nat)
    ensures p > 0
  {
    if n == 0 then 1 else 2 * Pow2(n - 1)
  }

  lemma {:induction false} Pow2Add(a: nat, b: nat)
    ensures Pow2(a) * Pow2(b) == Pow2(a + b)
  {
    if a > 0 {
      Pow2Add(a - 1, b);
      assert Pow2(a) * Pow2(b) == 2 * (Pow2(a - 1) * Pow2(b));
    }
  }

  function Abs(x: int): nat {
    if x < 0 then -x else x
  }

  /** The quotient of signed numbers, truncated toward zero. */
  function Quotient(u: int, v: int): int
    requires v != 0
  {
    var q := Abs(u) / Abs(v);
    if (u < 0) == (v < 0) then q else -q
  }
}
