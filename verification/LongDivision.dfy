/**
 Division of 64-bit numbers out of 32-bit words: a quotient word is estimated from
 the leading words of the normalized operands and corrected at most once.
 */
module LongDivision {
  import opened MachineWords
  import opened Arithmetic

  const WW: int := 0x1_0000_0000_0000_0000

  type Long = x: int | 0 <= x < 0x1_0000_0000_0000_0000

  lemma {:induction false} Pow2Values()
    ensures Pow2(31) == 0x8000_0000 && Pow2(32) == W
  {
    assert Pow2(8) == 256;
    Pow2Add(8, 8);
    Pow2Add(16, 16);
    assert Pow2(32) == 2 * Pow2(31);
  }

  // ---------- the machine instructions ----------

  /** divl: divides a two-word number; faults unless the quotient fits a word. */
  method Divl(n1: Word, n0: Word, d: Word) returns (q: Word, r: Word)
    requires n1 < d
    ensures q * d + r == n1 * W + n0 && r < d
  {
    var n := n1 * W + n0;
    QuotientFits(n1, n0, d);
    q, r := n / d, n % d;
  }

  lemma {:induction false} QuotientFits(n1: Word, n0: Word, d: Word)
    requires n1 < d
    ensures 0 <= (n1 * W + n0) / d < W
  {
    var q := (n1 * W + n0) / d;
    assert q * d <= n1 * W + n0 < W * d;
    if q >= W {
      MulLe(W, q, d);
      assert false;
    }
  }

  /** mull: the two-word product. */
  method Mull(u: Word, v: Word) returns (w1: Word, w0: Word)
    ensures w1 * W + w0 == u * v
  {
    ProductFits(u, v);
    w1, w0 := u * v / W, u * v % W;
  }

  lemma {:induction false} ProductFits(u: Word, v: Word)
    ensures 0 <= u * v < WW && 0 <= u * v / W < W
  {
    MulLe(0, u, v);
    MulLe(u, W - 1, v);
    HighWord(u * v);
  }

  lemma {:induction false} HighWord(p: int)
    requires 0 <= p < WW
    ensures 0 <= p / W < W
  {
  }

  /** subl and sbbl: two-word subtraction modulo two words. */
  method Sub(ah: Word, al: Word, bh: Word, bl: Word) returns (sh: Word, sl: Word)
    ensures var diff := ah * W + al - (bh * W + bl);
            sh * W + sl == if diff >= 0 then diff else diff + WW
  {
    var d := (ah * W + al - (bh * W + bl)) % WW;
    sh, sl := d / W, d % W;
  }

  /** bsrl: the number of leading zero bits of a non-zero word. */
  method CountLeadingZeros(x: Word) returns (n: nat)
    requires x > 0
    ensures n <= 31 && 0x8000_0000 <= x * Pow2(n) < W
  {
    n := 0;
    Pow2Values();
    while x * Pow2(n) < 0x8000_0000
      invariant n <= 31 && x * Pow2(n) < W
      decreases 31 - n
    {
      TooFar(x, n);
      assert x * Pow2(n + 1) == 2 * (x * Pow2(n));
      n := n + 1;
    }
  }

  lemma {:induction false} TooFar(x: Word, n: nat)
    requires x > 0 && n <= 31 && x * Pow2(n) < 0x8000_0000
    ensures n < 31
  {
    if n == 31 {
      Pow2Values();
      assert false;
    }
  }

  // ---------- shifts of words ----------

  /** x << b, where k == 2^b. */
  method Shl(x: Word, k: nat) returns (r: Word)
    requires k > 0
    ensures r == (x * k) % W
  {
    r := (x * k) % W;
  }

  /** x >> b, where c == 2^b. */
  method Shr(x: Word, c: nat) returns (r: Word)
    requires c > 0
    ensures r == x / c
  {
    DivLe(x, c);
    r := x / c;
  }

  /** a | b, for words that have no set bit in common: a has only bits from k on. */
  method Or(a: Word, b: Word, ghost k: nat) returns (r: Word)
    requires k > 0 && a % k == 0 && b < k && a + b < W
    ensures r == a + b
  {
    r := a + b;
  }

  /** Shifting a word left by k, with c == W / k: the part shifted out and the rest. */
  lemma {:induction false} ShiftParts(x: Word, k: nat, c: nat)
    requires k > 0 && c > 0 && k * c == W
    ensures x * k == (x / c) * W + (x % c) * k
    ensures (x * k) % W == (x % c) * k && 0 <= x / c < k && (x % c) * k <= W - k
  {
    var h, l := x / c, x % c;
    assert x == h * c + l;
    calc {
      x * k;
      (h * c + l) * k;
      h * (c * k) + l * k;
    }
    MulLe(l + 1, c, k);
    assert (l + 1) * k == l * k + k;
    ModUnique(x * k, W, h, l * k);
    if h >= k {
      MulLe(k, h, c);
      assert false;
    }
  }

  // ---------- the division ----------

  /** The quotient of normalized numbers. The estimate q from the leading words is
      too large by at most one, which shows in the comparison of the product with
      what is left. */
  lemma {:induction false} EstimateOff(n2: Word, n1: Word, n0: Word, d1: Word, d0: Word, q: Word, r: Word, k: nat)
    requires 0 < k <= 0x8000_0000 && 0x8000_0000 <= d1 && d0 <= W - k && n2 < k
    requires q * d1 + r == n2 * W + n1 && r < d1
    ensures n2 * WW + n1 * W + n0 == q * (d1 * W + d0) + (r * W + n0 - q * d0)
    ensures -(d1 * W + d0) <= r * W + n0 - q * d0 < d1 * W + d0
  {
    assert n2 * WW + n1 * W == (q * d1 + r) * W;
    EstimateBound(n2, n1, d1, q, r, k);
    // q < 2k and d0 <= W - k make q * d0 at most 2^31 * W
    ProductBound(q, d0, k);
    MulLe(0, q, d0);
    MulLe(r + 1, d1, W);
    MulLe(0x8000_0000, d1, W);
  }

  lemma {:induction false} EstimateBound(n2: Word, n1: Word, d1: Word, q: Word, r: Word, k: nat)
    requires 0 < k <= 0x8000_0000 && 0x8000_0000 <= d1 && n2 < k
    requires q * d1 + r == n2 * W + n1
    ensures q < 2 * k
  {
    if q >= 2 * k {
      MulLe(2 * k, q, d1);
      MulLe(0x8000_0000, d1, 2 * k);
      MulLe(n2 + 1, k, W);
      assert false;
    }
  }

  lemma {:induction false} ProductBound(q: Word, d0: Word, k: nat)
    requires 0 < k <= 0x8000_0000 && q < 2 * k && d0 <= W - k
    ensures q * d0 <= 0x8000_0000 * W
  {
    MulLe(q, 2 * k, d0);
    MulLe(d0, W - k, 2 * k);
    // 2k(W - k) is largest at k == W / 2
    var e := 0x8000_0000 - k;
    assert 2 * k * (W - k) == 0x8000_0000 * W - 2 * (e * e) by {
      assert k == 0x8000_0000 - e;
    }
    assert e * e >= 0;
  }

  /** A two-word number shifted left by k: the three words of the result. */
  lemma {:induction false} ShiftTwo(x1: Word, x0: Word, k: nat, c: nat)
    requires 0 < k && c > 0 && k * c == W
    ensures var h, m, l := x1 / c, (x1 % c) * k + x0 / c, (x0 % c) * k;
            && h * WW + m * W + l == (x1 * W + x0) * k
            && 0 <= h < k && m < W && l <= W - k
  {
    ShiftParts(x1, k, c);
    ShiftParts(x0, k, c);
    assert (x1 * W + x0) * k == (x1 * k) * W + x0 * k;
  }

  /** Dividing out the shift: the remainder of the shifted division, shifted back. */
  lemma {:induction false} Unshift(n: int, d: int, k: int, q: int, r: int)
    requires k > 0 && d > 0 && n * k == q * (d * k) + r && 0 <= r < d * k
    ensures r % k == 0 && q == n / d && r / k == n % d
  {
    var e := n - q * d;
    assert r == e * k by {
      assert q * (d * k) == (q * d) * k;
    }
    ModUnique(r, k, e, 0);
    if e < 0 {
      MulLe(e, -1, k);
      assert false;
    }
    if e >= d {
      MulLe(d, e, k);
      assert false;
    }
    ModUnique(n, d, q, e);
  }

  /** The middle word of a two-word number shifted left by k. */
  method Middle(x1: Word, x0: Word, k: nat, c: nat) returns (m: Word)
    requires 0 < k && c > 0 && k * c == W
    ensures m == (x1 % c) * k + x0 / c
  {
    var x := Shl(x1, k);
    var y := Shr(x0, c);
    MiddleFits(x1, x0, k, c);
    m := Or(x, y, k);
  }

  lemma {:induction false} MiddleFits(x1: Word, x0: Word, k: nat, c: nat)
    requires 0 < k && c > 0 && k * c == W
    ensures (x1 * k) % W == (x1 % c) * k && ((x1 * k) % W) % k == 0
    ensures 0 <= x0 / c < k && (x1 * k) % W + x0 / c < W
  {
    ShiftParts(x1, k, c);
    ShiftParts(x0, k, c);
    ModUnique((x1 % c) * k, k, x1 % c, 0);
  }

  /** Shifts a two-word number left. */
  method ShiftLeft(x1: Word, x0: Word, k: nat, c: nat) returns (h: Word, m: Word, l: Word)
    requires 0 < k && c > 0 && k * c == W
    ensures h * WW + m * W + l == (x1 * W + x0) * k && h < k && l <= W - k
  {
    h := Shr(x1, c);
    m := Middle(x1, x0, k, c);
    l := Shl(x0, k);
    ShiftParts(x0, k, c);
    ShiftTwo(x1, x0, k, c);
  }

  /** Shifts a two-word number right. */
  method ShiftRight(x1: Word, x0: Word, k: nat, c: nat) returns (h: Word, l: Word)
    requires 0 < k && c > 0 && k * c == W
    ensures h * W + l == (x1 * W + x0) / k
  {
    h := Shr(x1, k);
    l := Middle(x1, x0, c, k);
    ShiftTwo(x1, x0, c, k);
    ShiftBack(x1, x0, k, c);
  }

  /** Shifting left by c and dropping the low word shifts right by k. */
  lemma {:induction false} ShiftBack(x1: Word, x0: Word, k: nat, c: nat)
    requires 0 < k && c > 0 && k * c == W
    ensures (x1 / k) * W + ((x1 % k) * c + x0 / k) == (x1 * W + x0) / k
  {
    var h, m, l := x1 / k, (x1 % k) * c + x0 / k, x0 % k;
    assert x1 == h * k + x1 % k && x0 == (x0 / k) * k + l;
    assert (h * k + x1 % k) * W == (h * W + (x1 % k) * c) * k by {
      assert W == k * c;
    }
    ModUnique(x1 * W + x0, k, h * W + m, l);
  }

  /** One quotient word of normalized numbers: estimate, then correct at most once. */
  method Estimate(m2: Word, m1: Word, m0: Word, e1: Word, e0: Word, ghost k: nat) returns (q: Word, h1: Word, h0: Word)
    requires 0 < k <= 0x8000_0000 && 0x8000_0000 <= e1 && e0 <= W - k && m2 < k
    ensures q * (e1 * W + e0) + (h1 * W + h0) == m2 * WW + m1 * W + m0
    ensures h1 * W + h0 < e1 * W + e0
  {
    var rest: Word;
    q, rest := Divl(m2, m1, e1);
    EstimateOff(m2, m1, m0, e1, e0, q, rest, k);
    var p1, p0 := Mull(q, e0);
    Positive(q, e0);
    q, h1, h0 := Correct(q, rest, m0, p1, p0, e1, e0, m2 * WW + m1 * W + m0);
  }

  /** Compares the product with what is left and corrects the estimate. */
  method Correct(estimate: Word, rest: Word, m0: Word, p1: Word, p0: Word, e1: Word, e0: Word, ghost n: int)
    returns (q: Word, h1: Word, h0: Word)
    requires n == estimate * (e1 * W + e0) + (rest * W + m0 - (p1 * W + p0))
    requires -(e1 * W + e0) <= rest * W + m0 - (p1 * W + p0) < e1 * W + e0
    requires p1 * W + p0 > 0 ==> estimate > 0
    ensures q * (e1 * W + e0) + (h1 * W + h0) == n
    ensures h1 * W + h0 < e1 * W + e0
  {
    var x1, x0 := p1, p0;
    ghost var d := e1 * W + e0;
    q := estimate;
    if p1 > rest || (p1 == rest && p0 > m0) {
      assert (q - 1) * d == q * d - d;
      q := q - 1;
      x1, x0 := Sub(p1, p0, e1, e0);
    }
    h1, h0 := Sub(rest, m0, x1, x0);
  }

  lemma {:induction false} Positive(a: nat, b: nat)
    ensures a * b > 0 ==> a > 0 && b > 0
  {
    if a == 0 || b == 0 {
      assert a * b == 0;
    }
  }

  /** Division by a two-word number with leading zeros, k == 2^bm. */
  method DivideNormalized(n1: Word, n0: Word, d1: Word, d0: Word, k: nat, c: nat) returns (q: Word, r1: Word, r0: Word)
    requires 0 < k <= 0x8000_0000 && k * c == W && 0x8000_0000 <= d1 * k < W && d1 > 0
    ensures q == (n1 * W + n0) / (d1 * W + d0) && r1 * W + r0 == (n1 * W + n0) % (d1 * W + d0)
  {
    Positive(k, c);
    ghost var n, d := n1 * W + n0, d1 * W + d0;
    var e1 := Middle(d1, d0, k, c);
    var e0 := Shl(d0, k);
    DivisorFits(d1, d0, k, c);
    var m2, m1, m0 := ShiftLeft(n1, n0, k, c);
    var h1, h0;
    q, h1, h0 := Estimate(m2, m1, m0, e1, e0, k);
    Unshift(n, d, k, q, h1 * W + h0);
    r1, r0 := ShiftRight(h1, h0, k, c);
  }

  /** Counting the leading zeros of d1 makes the divisor fit two words when shifted. */
  lemma {:induction false} DivisorFits(d1: Word, d0: Word, k: nat, c: nat)
    requires 0 < k && 0 < c && k * c == W && 0x8000_0000 <= d1 * k < W
    ensures var e1, e0 := (d1 % c) * k + d0 / c, (d0 * k) % W;
            e1 * W + e0 == (d1 * W + d0) * k && 0x8000_0000 <= e1 && 0 <= e0 <= W - k
  {
    if d1 >= c {
      MulLe(c, d1, k);
      assert false;
    }
    ModUnique(d1, c, 0, d1);
    ShiftParts(d0, k, c);
    ShiftTwo(d1, d0, k, c);
  }

  lemma {:induction false} Digits(n: int, n1: int, n0: int, d: int, q1: int, r1: int, q0: int, r0: int)
    requires d > 0 && n == n1 * W + n0 && n1 == q1 * d + r1 && r1 * W + n0 == q0 * d + r0 && 0 <= r0 < d
    ensures n / d == q1 * W + q0 && n % d == r0
  {
    assert (q1 * W + q0) * d == (q1 * d) * W + q0 * d;
    ModUnique(n, d, q1 * W + q0, r0);
  }

  /** Division by one word: one divl, or two when the quotient needs two words. */
  method DivideByWord(n1: Word, n0: Word, d0: Word) returns (q1: Word, q0: Word, r0: Word)
    requires d0 > 0
    ensures q1 * W + q0 == (n1 * W + n0) / d0 && r0 == (n1 * W + n0) % d0
  {
    var rest := n1;
    q1 := 0;
    if d0 <= n1 {
      q1, rest := Divl(0, n1, d0);
    }
    q0, r0 := Divl(rest, n0, d0);
    Digits(n1 * W + n0, n1, n0, d0, q1, rest, q0, r0);
  }

  /** Division by a number of two words, n1 >= d1. */
  method DivideByLong(n1: Word, n0: Word, d1: Word, d0: Word) returns (q0: Word, r1: Word, r0: Word)
    requires 0 < d1 <= n1
    ensures q0 == (n1 * W + n0) / (d1 * W + d0) && r1 * W + r0 == (n1 * W + n0) % (d1 * W + d0)
  {
    var bm := CountLeadingZeros(d1);
    Pow2Values();
    if bm == 0 {
      q0, r1, r0 := DivideByHalf(n1, n0, d1, d0);
    } else {
      PowersAround(bm);
      q0, r1, r0 := DivideNormalized(n1, n0, d1, d0, Pow2(bm), Pow2(32 - bm));
    }
  }

  lemma {:induction false} PowersAround(b: nat)
    requires b <= 31
    ensures Pow2(b) <= 0x8000_0000 && Pow2(b) * Pow2(32 - b) == W
  {
    Pow2Values();
    Pow2Add(b, 32 - b);
    PowerBelow(b);
  }

  lemma {:induction false} PowerBelow(b: nat)
    requires b <= 31
    ensures Pow2(b) <= Pow2(31)
    decreases 31 - b
  {
    if b < 31 {
      PowerBelow(b + 1);
    }
  }

  /** A divisor whose top bit is set goes into the number at most once. */
  method DivideByHalf(n1: Word, n0: Word, d1: Word, d0: Word) returns (q0: Word, r1: Word, r0: Word)
    requires 0x8000_0000 <= d1 <= n1
    ensures q0 == (n1 * W + n0) / (d1 * W + d0) && r1 * W + r0 == (n1 * W + n0) % (d1 * W + d0)
  {
    q0, r1, r0 := 0, n1, n0;
    if n1 > d1 || n0 >= d0 {
      q0 := 1;
      r1, r0 := Sub(n1, n0, d1, d0);
    }
    ModUnique(n1 * W + n0, d1 * W + d0, q0, r1 * W + r0);
  }

  /** Quotient and remainder of 64-bit numbers. */
  method UDivMod(n: Long, d: Long) returns (q: Long, r: Long)
    requires d != 0
    ensures q == n / d && r == n % d
  {
    var n1, n0, d1, d0 := n / W, n % W, d / W, d % W;
    var q1, q0, r1, r0: Word := 0, 0, 0, 0;
    if d1 == 0 {
      q1, q0, r0 := DivideByWord(n1, n0, d0);
    } else if d1 > n1 {
      r1, r0 := n1, n0;
      ModUnique(n, d, 0, n);
    } else {
      q0, r1, r0 := DivideByLong(n1, n0, d1, d0);
    }
    q, r := q1 * W + q0, r1 * W + r0;
  }

  // ---------- signed division ----------

  type Signed = x: int | -0x8000_0000_0000_0000 <= x < 0x8000_0000_0000_0000

  /** The bits of a signed number, read as an unsigned one. */
  function Bits(x: Signed): Long {
    if x < 0 then x + WW else x
  }

  /** The signed number with the given bits. */
  function FromBits(x: Long): (r: Signed)
    ensures Bits(r) == x
  {
    if x < 0x8000_0000_0000_0000 then x else x - WW
  }

  /** Two's complement negation. */
  function Negate(x: Long): Long {
    if x == 0 then 0 else WW - x
  }

  /** Truncation toward zero: the remainder takes the sign of the dividend. This
      determines quotient and remainder. */
  lemma {:induction false} QuotientTruncates(u: int, v: int, q: int, r: int)
    requires v != 0
    ensures q == Quotient(u, v) && r == u - v * q <==> u == v * q + r && Abs(r) < Abs(v) && r * u >= 0
  {
    if u == v * q + r && Abs(r) < Abs(v) && r * u >= 0 {
      SameSign(r, u);
      QuotientUnique(u, v, q, r);
    }
    if q == Quotient(u, v) && r == u - v * q {
      RemainderValue(u, v);
      SignProduct(r, u);
    }
  }

  lemma {:induction false} SignProduct(r: int, u: int)
    requires if u < 0 then r <= 0 else r >= 0
    ensures r * u >= 0
  {
  }

  lemma {:induction false} SameSign(r: int, u: int)
    requires r * u >= 0
    ensures u > 0 ==> r >= 0
    ensures u < 0 ==> r <= 0
  {
  }

  lemma {:induction false} SmallMultiple(r: int, b: int, s: int)
    requires b > 0 && s * b + r == 0 && -b < r < b
    ensures r == 0
  {
    if r < 0 {
      ModUnique(-r, b, s, 0);
      ModUnique(-r, b, 0, -r);
    } else {
      ModUnique(r, b, -s, 0);
      ModUnique(r, b, 0, r);
    }
  }

  lemma {:induction false} Signs(u: int, v: int, q: int)
    requires v != 0
    ensures var s := if (u < 0) == (v < 0) then q else -q;
            v * q == if u < 0 then -(s * Abs(v)) else s * Abs(v)
  {
  }

  lemma {:induction false} QuotientUnique(u: int, v: int, q: int, r: int)
    requires v != 0 && u == v * q + r && Abs(r) < Abs(v)
    requires u > 0 ==> r >= 0
    requires u < 0 ==> r <= 0
    ensures q == Quotient(u, v)
  {
    var b := Abs(v);
    var s := if (u < 0) == (v < 0) then q else -q;
    Signs(u, v, q);
    if u == 0 {
      SmallMultiple(r, b, s);
    }
    ModUnique(Abs(u), b, s, Abs(r));
  }

  lemma {:induction false} QuotientRange(u: Signed, v: Signed)
    requires v != 0
    ensures 0 <= Abs(u) / Abs(v) <= 0x8000_0000_0000_0000
    ensures Abs(u) / Abs(v) == 0x8000_0000_0000_0000 ==> u == -0x8000_0000_0000_0000 && Abs(v) == 1
  {
    var a, b := Abs(u), Abs(v);
    DivLe(a, b);
    if b >= 2 {
      MulLe(2, b, a / b);
      assert a == (a / b) * b + a % b;
    } else {
      ModUnique(a, 1, a, 0);
    }
  }

  /** __divdi3: the only quotient that does not fit is the least number divided by
      -1, which gives the least number again. */
  method Div(u: Signed, v: Signed) returns (w: Signed)
    requires v != 0
    ensures w == if u == -0x8000_0000_0000_0000 && v == -1 then u else Quotient(u, v)
  {
    var negative := false;
    var uu, vv := Bits(u), Bits(v);
    if u < 0 {
      negative := !negative;
      uu := Negate(uu);
    }
    if v < 0 {
      negative := !negative;
      vv := Negate(vv);
    }
    assert uu == Abs(u) && vv == Abs(v);
    QuotientRange(u, v);
    var q, _ := UDivMod(uu, vv);
    if negative {
      q := Negate(q);
    }
    w := FromBits(q);
  }

  /** __moddi3: the remainder that goes with the truncated quotient. */
  method Mod(u: Signed, v: Signed) returns (w: Signed)
    requires v != 0
    ensures w == u - v * Quotient(u, v)
  {
    var uu, vv := Bits(u), Bits(v);
    if u < 0 {
      uu := Negate(uu);
    }
    if v < 0 {
      vv := Negate(vv);
    }
    assert uu == Abs(u) && vv == Abs(v);
    var _, r := UDivMod(uu, vv);
    RemainderValue(u, v);
    if u < 0 {
      r := Negate(r);
    }
    w := FromBits(r);
  }

  lemma {:induction false} RemainderValue(u: int, v: int)
    requires v != 0
    ensures var r: int := Abs(u) % Abs(v);
            0 <= r < Abs(v) && u - v * Quotient(u, v) == if u < 0 then -r else r
  {
    var a: int, b: int := Abs(u), Abs(v);
    var q := a / b;
    assert a == q * b + a % b;
    if v < 0 {
      assert v * q == -(q * b) && v * (-q) == q * b;
    } else {
      assert v * q == q * b && v * (-q) == -(q * b);
    }
  }

  // ---------- shifts of 64-bit numbers ----------

  /** __shrdi3. */
  method ShiftRightLong(a: Long, b: nat) returns (r: Long)
    requires b < 64
    ensures r == a / Pow2(b)
  {
    var h, l: Word := a / W, a % W;
    if b >= 32 {
      HighPart(a, b);
      l := Shr(h, Pow2(b - 32));
      h := 0;
    } else if b != 0 {
      PowersAround(b);
      h, l := ShiftRight(h, l, Pow2(b), Pow2(32 - b));
    }
    r := h * W + l;
  }

  lemma {:induction false} HighPart(a: int, b: nat)
    requires b >= 32
    ensures a / Pow2(b) == (a / W) / Pow2(b - 32)
  {
    Pow2Values();
    Pow2Add(32, b - 32);
    var c := Pow2(b - 32);
    var h := a / W;
    var q, m := h / c, h % c;
    assert h == q * c + m;
    MulLe(m + 1, c, W);
    assert a == q * (c * W) + (m * W + a % W) by {
      assert (q * c) * W == q * (c * W);
    }
    ModUnique(a, Pow2(b), q, m * W + a % W);
  }

  /** __shldi3. */
  method ShiftLeftLong(a: Long, b: nat) returns (r: Long)
    requires b < 64
    ensures r == (a * Pow2(b)) % WW
  {
    var h, l: Word := a / W, a % W;
    if b >= 32 {
      h, l := ShiftLeftFar(h, l, b, a);
    } else {
      h, l := ShiftLeftNear(h, l, b, a);
    }
    r := h * W + l;
  }

  /** The low word takes the place of the high one. */
  method ShiftLeftFar(ghost h: Word, l: Word, b: nat, ghost a: int) returns (h1: Word, l1: Word)
    requires 32 <= b < 64 && a == h * W + l
    ensures h1 * W + l1 == (a * Pow2(b)) % WW
  {
    ShiftOut(h, l, b);
    h1 := Shl(l, Pow2(b - 32));
    l1 := 0;
  }

  method ShiftLeftNear(h: Word, l: Word, b: nat, ghost a: int) returns (h1: Word, l1: Word)
    requires b < 32 && a == h * W + l
    ensures h1 * W + l1 == (a * Pow2(b)) % WW
  {
    if b == 0 {
      DropTop(0, h, l, a);
      h1, l1 := h, l;
    } else {
      PowersAround(b);
      h1, l1 := ShiftLeftWords(h, l, Pow2(b), Pow2(32 - b));
    }
  }

  method ShiftLeftWords(x1: Word, x0: Word, k: nat, c: nat) returns (m: Word, l: Word)
    requires 0 < k && c > 0 && k * c == W
    ensures m * W + l == ((x1 * W + x0) * k) % WW
  {
    m := Middle(x1, x0, k, c);
    l := Shl(x0, k);
    ShiftParts(x0, k, c);
    ShiftTwo(x1, x0, k, c);
    DropTop(x1 / c, m, l, (x1 * W + x0) * k);
  }

  lemma {:induction false} DropTop(h: int, m: int, l: int, n: int)
    requires n == h * WW + m * W + l && 0 <= m < W && 0 <= l < W
    ensures n % WW == m * W + l
  {
    ModUnique(n, WW, h, m * W + l);
  }

  lemma {:induction false} ShiftOut(h: Word, l: Word, b: nat)
    requires b >= 32
    ensures ((h * W + l) * Pow2(b)) % WW == (l * Pow2(b - 32)) % W * W
  {
    Pow2Values();
    Pow2Add(32, b - 32);
    var c := Pow2(b - 32);
    var q, m := (l * c) / W, (l * c) % W;
    assert l * c == q * W + m;
    assert (h * W + l) * (W * c) == (h * c + q) * WW + m * W by {
      assert (h * W + l) * (W * c) == (h * c) * WW + (l * c) * W;
    }
    DropTop(h * c + q, m, 0, (h * W + l) * Pow2(b));
  }

  /** __sardi3: the high word is signed, so the shift rounds down. */
  method ShiftRightSigned(a: Signed, b: nat) returns (r: Signed)
    requires b < 64
    ensures r == a / Pow2(b)
  {
    var h, l := a / W, a % W;
    if b >= 32 {
      HighPart(a, b);
      ShiftedHigh(h, Pow2(b - 32));
      l := (h / Pow2(b - 32)) % W;
      h := if h < 0 then -1 else 0;
    } else if b != 0 {
      PowersAround(b);
      SignedMiddle(h, l, Pow2(b), Pow2(32 - b));
      l := Middle(h % W, l, Pow2(32 - b), Pow2(b));
      h := h / Pow2(b);
    }
    r := h * W + l;
  }

  lemma {:induction false} ShiftedHigh(h: int, c: nat)
    requires -0x8000_0000 <= h < 0x8000_0000 && c > 0
    ensures -0x8000_0000 <= h / c < 0x8000_0000 && (h < 0 <==> h / c < 0)
  {
    var q := h / c;
    assert h == q * c + h % c;
    if h >= 0 {
      DivLe(h, c);
    } else if q >= 0 {
      MulLe(0, q, c);
      assert false;
    } else {
      MulLe(1, c, -q - 1);
      assert (-q - 1) * c == -(q * c) - c;
    }
  }

  lemma {:induction false} SignedMiddle(h: int, l: Word, k: nat, c: nat)
    requires -0x8000_0000 <= h < 0x8000_0000 && 0 < k && 0 < c && k * c == W
    ensures (h / k) * W + (((h % W) % k) * c + l / k) == (h * W + l) / k
    ensures -0x8000_0000 <= h / k < 0x8000_0000
  {
    ShiftedHigh(h, k);
    var q, m := h / k, h % k;
    assert h == q * k + m;
    var hu := h % W;
    assert hu == h || hu == h + W;
    if hu == h + W {
      assert hu == (q + c) * k + m;
      ModUnique(hu, k, q + c, m);
    }
    assert l == (l / k) * k + l % k;
    assert (q * k + m) * W == (q * W + m * c) * k;
    ModUnique(h * W + l, k, q * W + (m * c + l / k), l % k);
  }
}
