/**
 64-bit division built from an instruction that divides 64 bits by 32 bits.
 */
module Arithmetic {

  import opened Division

  const B: nat := 0x1_0000_0000
  const W: nat := 0x1_0000_0000_0000_0000

  function Pow(k: nat): (p: nat)
    ensures p > 0
  {
    if k == 0 then 1 else 2 * Pow(k - 1)
  }

  lemma {:induction false} PowAdd(j: nat, k: nat)
    ensures Pow(j + k) == Pow(j) * Pow(k)
  {
    if j > 0 {
      PowAdd(j - 1, k);
    }
  }

  lemma PowsOfTwo()
    ensures Pow(1) == 2 && Pow(2) == 4 && Pow(4) == 16 && Pow(8) == 0x100 && Pow(16) == 0x1_0000
    ensures Pow(31) == 0x8000_0000 && Pow(32) == B
  {
    assert Pow(1) == 2 * Pow(0);
    assert Pow(32) == 2 * Pow(31);
    hide Pow;
    PowAdd(1, 1);
    PowAdd(2, 2);
    PowAdd(4, 4);
    PowAdd(8, 8);
    PowAdd(16, 16);
  }

  // ---------- Leading zeros ----------

  function Shl(x: nat, n: nat): nat {
    x * Pow(n)
  }

  lemma ShiftLeft(x: nat, n: nat, k: nat, f: nat)
    requires Pow(k) == f
    ensures Shl(x, n + k) == Shl(x, n) * f
  {
    PowAdd(n, k);
    Regroup(x, Pow(n), Pow(k));
  }

  lemma NotShifted(x: nat)
    ensures Shl(x, 0) == x
  {
  }

  lemma TopBitFound(x: nat, n: nat)
    requires n <= 31 && 0x8000_0000 <= Shl(x, n) < B
    ensures Pow(31 - n) <= x < Pow(32 - n)
  {
    PowsOfTwo();
    PowAdd(31 - n, n);
    PowAdd(32 - n, n);
    hide Pow;
    Times(x, Pow(31 - n), Pow(n));
    Times(Pow(32 - n), x, Pow(n));
  }

  /** nlz() */
  method Nlz(x: nat) returns (n: nat)
    requires 0 < x < B
    ensures n <= 31 && Pow(31 - n) <= x < Pow(32 - n)
  {
    hide Shl, Pow;
    PowsOfTwo();
    NotShifted(x);
    n := 0;
    var y := x;
    if y <= 0x0000_FFFF {
      ShiftLeft(x, n, 16, 0x1_0000);
      n, y := n + 16, y * 0x1_0000;
    }
    if y <= 0x00FF_FFFF {
      ShiftLeft(x, n, 8, 0x100);
      n, y := n + 8, y * 0x100;
    }
    if y <= 0x0FFF_FFFF {
      ShiftLeft(x, n, 4, 16);
      n, y := n + 4, y * 0x10;
    }
    if y <= 0x3FFF_FFFF {
      ShiftLeft(x, n, 2, 4);
      n, y := n + 2, y * 4;
    }
    if y <= 0x7FFF_FFFF {
      ShiftLeft(x, n, 1, 2);
      n := n + 1;
    }
    TopBitFound(x, n);
  }

  // ---------- The estimate for large divisors ----------

  /** Dividing by `d` rounded down to a multiple of `m` gives the quotient or one more. */
  lemma Estimate(n: nat, d: nat, m: nat, v: nat)
    requires n < W && m >= 2 && v >= 0x8000_0000 && v == d / m
    ensures d > 0 && v * m > 0 && n / d <= n / (v * m) <= n / d + 1
  {
    var e, t, q := v * m, d % m, n / d;
    assert d == e + t;
    Close(n, d, e, m, v, t);
    NotTwoMore(n, d, e, t);
    QuotientAtMost(n, e, q + 2);
    QuotientShrinks(n, d, e);
  }

  lemma NotTwoMore(n: nat, d: nat, e: nat, t: nat)
    requires d == e + t && e > 0 && n * t < d * e
    ensures n < (n / d + 2) * e
  {
    var q := n / d;
    assert n == q * d + n % d;
    Distribute(q, 2, d);
    assert n + d < (q + 2) * d;
    Distribute(e, t, n);
    Distribute(n, d, e);
    assert n * d < (n + d) * e;
    Times(n + d, (q + 2) * d, e);
    Regroup(q + 2, d, e);
    assert n * d < ((q + 2) * e) * d;
    Times((q + 2) * e, n, d);
  }

  /** The rounding is too small to matter by more than one. */
  lemma Close(n: nat, d: nat, e: nat, m: nat, v: nat, t: nat)
    requires n < W && m >= 2 && v >= 0x8000_0000 && e == v * m && t < m && d == e + t
    ensures e > 0 && n * t < d * e
  {
    AtLeastOnce(m, v);
    Times(t, m - 1, n);
    Times(n, W, m - 1);
    assert t * n == n * t && (m - 1) * n == n * (m - 1);
    Square(v, m);
    FourTimes(m);
    Times(e, d, e);
  }

  lemma FourTimes(m: nat)
    requires m >= 2
    ensures W * (m - 1) <= 0x4000_0000_0000_0000 * (m * m)
  {
    assert (m - 2) * (m - 2) == m * m - 4 * m + 4;
    AtLeastOnce(m - 2, m - 2);
  }

  lemma Square(v: nat, m: nat)
    requires v >= 0x8000_0000
    ensures 0x4000_0000_0000_0000 * (m * m) <= (v * m) * (v * m)
  {
    Times(0x8000_0000, v, m);
    var a, e := 0x8000_0000 * m, v * m;
    Times(a, e, a);
    Times(a, e, e);
    assert a * e == e * a;
    assert a * a == 0x4000_0000_0000_0000 * (m * m);
  }

  // ---------- The operations ----------

  /** The DIVL instruction: it traps unless the quotient fits in 32 bits. */
  function Divl(n: nat, d: nat): nat
    requires n < W && 0 < d < B && n / d < B
  {
    n / d
  }

  /** Dividing the remainder of the high half, with the low half, gives the low half of the quotient. */
  lemma LongDivision(n: nat, d: nat, k: nat, r1: nat, n0: nat)
    requires n0 < B && 0 < d < B && r1 < d && n == B * (k * d + r1) + n0
    ensures var low := B * r1 + n0; low < W && low / d < B && n / d == low / d + B * k
  {
    var low := B * r1 + n0;
    Times(r1, d, B);
    assert low < B * d;
    QuotientAtMost(low, d, B);
    var q, r := low / d, low % d;
    assert low == q * d + r;
    HighPart(B, k, d, r1, k * d + r1);
    Distribute(q, B * k, d);
    DivisionUnique(n, d, q + B * k, r);
  }

  lemma HighPart(b: nat, k: nat, d: nat, r: nat, n1: nat)
    requires n1 == k * d + r
    ensures b * n1 == (b * k) * d + b * r
  {
    Regroup(b, k, d);
  }

  /** The estimate takes the quotient by the high half `v` of the normalized divisor, and shifts it into place. */
  lemma Normalized(n: nat, d: nat, s: nat, v: nat)
    requires n < W && B <= d < W && s <= 31 && Pow(31 - s) <= d / B < Pow(32 - s)
    requires v == (d * Pow(s)) / B
    ensures 0 < v < B && (n / 2) / v < B
    ensures n / d <= (n / 2) / v / Pow(31 - s) <= n / d + 1
  {
    PowsOfTwo();
    var m := Pow(32 - s);
    PowAdd(s, 32 - s);
    assert m == 2 * Pow(31 - s);
    hide Pow;
    CancelDiv(d, Pow(s), m);
    NormalBounds(d, m, d / B);
    QuotientAtMost(n / 2, v, B);
    DivDiv(n / 2, v, Pow(31 - s));
    DivDiv(n, 2, v * Pow(31 - s));
    Regroup(v, 2, Pow(31 - s));
    Estimate(n, d, m, v);
  }

  /** Normalizing the divisor shifts no bit out. */
  lemma NormalFits(d: nat, s: nat)
    requires s <= 31 && d / B < Pow(32 - s)
    ensures d * Pow(s) < W
  {
    PowsOfTwo();
    var p, m := Pow(s), Pow(32 - s);
    PowAdd(s, 32 - s);
    hide Pow;
    Times(d / B + 1, m, B);
    ProductFits(d, p, m);
  }

  lemma ProductFits(d: nat, p: nat, m: nat)
    requires p > 0 && m > 0 && p * m == B && d < m * B
    ensures d * p < W
  {
    Times(d, m * B, p);
    Regroup(m, B, p);
  }

  lemma NormalBounds(d: nat, m: nat, d1: nat)
    requires d1 == d / B && m <= 2 * d1 && d1 < m
    ensures 0x8000_0000 <= d / m < B
  {
    QuotientAtLeast(d, m, 0x8000_0000);
    Times(d1 + 1, m, B);
    QuotientAtMost(d, m, B);
  }

  method DivideSmall(n: nat, d: nat) returns (q: nat)
    requires n < W && 0 < d < B
    ensures q == n / d
  {
    var n1, n0 := n / B, n % B;
    var r1, k := n1 % d, n1 / d;
    Halves(n, d);
    LongDivision(n, d, k, r1, n0);
    q := Divl(B * r1 + n0, d) + B * k;
  }

  lemma Halves(n: nat, d: nat)
    requires d > 0
    ensures n == B * ((n / B / d) * d + n / B % d) + n % B && n / B % d < d
  {
    var n1 := n / B;
    assert n1 == (n1 / d) * d + n1 % d;
  }

  /** The quotient, or one more. */
  method EstimateQuotient(n: nat, d: nat) returns (q: nat)
    requires n < W && B <= d < W
    ensures n / d <= q <= n / d + 1
  {
    var s := Nlz(d / B);
    hide Pow, Shifted, ShiftRight, Divl;
    ShiftedEstimate(n, d, s);
    var v := Shifted(d, Pow(s));
    q := ShiftRight(Divl(n / 2, v), 31 - s);
  }

  function ShiftRight(x: nat, k: nat): nat {
    QuotientNotNegative(x, Pow(k));
    x / Pow(k)
  }

  /** The high half of a 64-bit product. */
  function Shifted(d: nat, p: nat): nat {
    d * p % W / B
  }

  lemma ShiftedIs(d: nat, p: nat)
    requires d * p < W
    ensures Shifted(d, p) == d * p / B
  {
  }

  lemma ShiftedEstimate(n: nat, d: nat, s: nat)
    requires n < W && B <= d < W && s <= 31 && Pow(31 - s) <= d / B < Pow(32 - s)
    ensures
      var v := Shifted(d, Pow(s));
      0 < v < B && (n / 2) / v < B && n / d <= ShiftRight(Divl(n / 2, v), 31 - s) <= n / d + 1
  {
    hide Pow, Shifted;
    NormalFits(d, s);
    ShiftedIs(d, Pow(s));
    Normalized(n, d, s, Shifted(d, Pow(s)));
  }

  method DivideLarge(n: nat, d: nat) returns (q: nat)
    requires n < W && B <= d < W
    ensures q == n / d
  {
    if n < d {
      DivisionUnique(n, d, 0, n);
      return 0;
    }
    var e := EstimateQuotient(n, d);
    OneOrTwo(n, d, e);
    var r := (n - (e - 1) * d) % W;
    q := if r < d then e - 1 else e;
  }

  /** udiv64(): neither use of DIVL traps. */
  method UDiv64(n: nat, d: nat) returns (q: nat)
    requires n < W && 0 < d < W
    ensures q == n / d
  {
    if d / B == 0 {
      q := DivideSmall(n, d);
    } else {
      q := DivideLarge(n, d);
    }
  }

  /** The remainder of the lower of the two candidates tells which one it is. */
  lemma OneOrTwo(n: nat, d: nat, q: nat)
    requires 0 < d <= n < W && n / d <= q <= n / d + 1
    ensures q >= 1 && 0 <= n - (q - 1) * d < W
    ensures n / d == if n - (q - 1) * d < d then q - 1 else q
  {
    var k := n / d;
    assert n == k * d + n % d;
    QuotientAtLeast(n, d, 1);
    Distribute(k, -1, d);
    AtLeastOnce(k, d);
  }

  /** umod64(): the result has 32 bits. */
  method UMod64(n: nat, d: nat) returns (r: nat)
    requires n < W && 0 < d < W
    ensures r == n % d % B
  {
    var q := UDiv64(n, d);
    assert n == d * q + n % d;
    var x := n - d * q;
    assert 0 <= x < W;
    r := x % W % B;
  }

  /** umod64() is the remainder for every dividend exactly when the divisor is at most 2 to the 32. */
  lemma UModExactIff(d: nat)
    requires 0 < d < W
    ensures (forall n: nat :: n < W ==> Cut(n, d) == n % d) <==> d <= B
  {
    if d <= B {
      forall n: nat | n < W
        ensures Cut(n, d) == n % d
      {
        assert n % d < d;
      }
    } else {
      DivisionUnique(B, d, 0, B);
      assert Cut(B, d) == 0;
    }
  }

  function Cut(n: nat, d: nat): int
    requires d > 0
  {
    n % d % B
  }

  // ---------- Signed division ----------

  const MIN64: int := -0x8000_0000_0000_0000

  predicate Int64(x: int) {
    MIN64 <= x < -MIN64
  }

  /** The 64-bit signed integer with the same low 64 bits. */
  function ToInt64(x: int): (r: int)
    ensures Int64(r) && (Int64(x) ==> r == x)
  {
    (x - MIN64) % W + MIN64
  }

  function ToInt32(x: int): (r: int)
    ensures -0x8000_0000 <= r < 0x8000_0000 && (-0x8000_0000 <= x < 0x8000_0000 <==> r == x)
  {
    (x + 0x8000_0000) % B - 0x8000_0000
  }

  function Abs(x: int): nat {
    if x < 0 then -x else x
  }

  /** The quotient rounded toward zero. */
  function Quotient(n: int, d: int): int
    requires d != 0
  {
    if (n < 0) == (d < 0) then Abs(n) / Abs(d) else -(Abs(n) / Abs(d))
  }

  function Remainder(n: int, d: int): int
    requires d != 0
  {
    n - d * Quotient(n, d)
  }

  lemma Negated(x: int, y: int)
    ensures (-x) * y == -(x * y) && x * (-y) == -(x * y)
  {
  }

  lemma SignedProduct(d: int, k: int, negative: bool)
    ensures d * (if negative == (d < 0) then k else -k) == if negative then -(Abs(d) * k) else Abs(d) * k
  {
    Negated(d, k);
  }

  lemma DividendOf(a: nat, b: nat)
    requires b > 0
    ensures a - b * (a / b) == a % b < b
  {
  }

  lemma RemainderOf(n: int, d: int)
    requires d != 0
    ensures Remainder(n, d) == if n < 0 then -(Abs(n) % Abs(d)) else Abs(n) % Abs(d)
  {
    SignedProduct(d, Abs(n) / Abs(d), n < 0);
    DividendOf(Abs(n), Abs(d));
  }

  /** Rounding toward zero: the remainder has the dividend's sign and is smaller than the divisor. */
  lemma QuotientIsTruncated(n: int, d: int)
    requires d != 0
    ensures var r := Remainder(n, d); Abs(r) < Abs(d) && (r == 0 || (r < 0) == (n < 0))
  {
    hide Remainder;
    RemainderOf(n, d);
  }

  lemma QuotientFits(n: int, d: int)
    requires d != 0 && Int64(n) && Int64(d)
    ensures 0 <= Abs(n) / Abs(d) <= -MIN64
    ensures Int64(Quotient(n, d)) <==> !(n == MIN64 && d == -1)
  {
    var a, b := Abs(n), Abs(d);
    QuotientNotNegative(a, b);
    AtLeastOnce(b, a / b);
    assert a == b * (a / b) + a % b;
    if b > 1 {
      Times(2, b, a / b);
    }
  }

  /** sdiv64(): the one quotient that does not fit wraps around. */
  method SDiv64(n: int, d: int) returns (q: int)
    requires d != 0 && Int64(n) && Int64(d)
    ensures n == MIN64 && d == -1 ==> q == MIN64
    ensures !(n == MIN64 && d == -1) ==> q == Quotient(n, d)
  {
    var nAbs := if n >= 0 then n else -n;
    var dAbs := if d >= 0 then d else -d;
    QuotientFits(n, d);
    var qAbs := UDiv64(nAbs, dAbs);
    q := if (n < 0) == (d < 0) then ToInt64(qAbs) else ToInt64(-ToInt64(qAbs));
  }

  /** smod64(): the result has 32 bits. */
  method SMod64(n: int, d: int) returns (r: int)
    requires d != 0 && Int64(n) && Int64(d)
    ensures r == ToInt32(Remainder(n, d))
  {
    var q := SDiv64(n, d);
    QuotientIsTruncated(n, d);
    r := ToInt32(ToInt64(n - ToInt64(d * q)));
  }

  /** smod64() is the remainder for every dividend exactly when the divisor is at most 2 to the 31 in size. */
  lemma SModExactIff(d: int)
    requires d != 0 && Int64(d)
    ensures (forall n :: Int64(n) ==> ToInt32(Remainder(n, d)) == Remainder(n, d)) <==> Abs(d) <= 0x8000_0000
  {
    if Abs(d) <= 0x8000_0000 {
      forall n | Int64(n)
        ensures ToInt32(Remainder(n, d)) == Remainder(n, d)
      {
        QuotientIsTruncated(n, d);
      }
    } else {
      var n := 0x8000_0000;
      DivisionUnique(n, Abs(d), 0, n);
      assert Int64(n) && Remainder(n, d) == n;
    }
  }
}
