/**
 Bitwise "and" on unsigned integers, and powers of 2.
 */
module Bits {

  import Division

  function And(x: nat, y: nat): nat {
    if x == 0 || y == 0 then 0 else 2 * And(x / 2, y / 2) + if x % 2 == 1 && y % 2 == 1 then 1 else 0
  }

  ghost predicate Pow2(n: nat) {
    n == 1 || (n > 0 && n % 2 == 0 && Pow2(n / 2))
  }

  /** The greatest power of 2 that is not greater than `n`. */
  ghost function Top(n: nat): nat {
    if n <= 1 then n else 2 * Top(n / 2)
  }

  lemma {:induction false} TopIsGreatest(n: nat)
    requires n > 0
    ensures Pow2(Top(n)) && Top(n) <= n < 2 * Top(n)
  {
    if n > 1 {
      TopIsGreatest(n / 2);
    }
  }

  lemma {:induction false} TopOfPow2(n: nat)
    requires Pow2(n)
    ensures Top(n) == n
  {
    if n > 1 {
      TopOfPow2(n / 2);
    }
  }

  lemma {:induction false} AndSelf(x: nat)
    ensures And(x, x) == x
  {
    if x > 0 {
      AndSelf(x / 2);
    }
  }

  /** Turning off the lowest bit leaves 0 of a power of 2, and otherwise a smaller number with the same highest bit. */
  lemma {:induction false} TurnOff(x: nat)
    requires x > 0
    ensures And(x, x - 1) < x
    ensures And(x, x - 1) == 0 <==> Pow2(x)
    ensures And(x, x - 1) > 0 ==> Top(And(x, x - 1)) == Top(x)
  {
    if x > 1 {
      var h := x / 2;
      AndHalves(x, x - 1);
      if x % 2 == 0 {
        assert (x - 1) / 2 == h - 1;
        TurnOff(h);
      } else {
        assert (x - 1) / 2 == h;
        AndSelf(h);
      }
      hide And;
    }
  }

  lemma AndHalves(x: nat, y: nat)
    ensures And(x, y) == 2 * And(x / 2, y / 2) + if x % 2 == 1 && y % 2 == 1 then 1 else 0
  {
  }

  /** Masking with a power of 2 less 1 is taking a remainder. */
  lemma {:induction false} MaskIsRemainder(h: nat, p: nat)
    requires Pow2(p)
    ensures And(h, p - 1) == h % p
  {
    if p > 1 {
      assert (p - 1) / 2 == p / 2 - 1 && (p - 1) % 2 == 1;
      AndHalves(h, p - 1);
      MaskIsRemainder(h / 2, p / 2);
      HalfRemainder(h, p / 2);
      hide And;
    }
  }

  lemma HalfRemainder(h: nat, q: nat)
    requires q > 0
    ensures h % (2 * q) == 2 * ((h / 2) % q) + h % 2
  {
    var k, r := (h / 2) / q, (h / 2) % q;
    Division.DivisionUnique(h, 2 * q, k, 2 * r + h % 2);
  }
}

