/** Toroidal index arithmetic: C's truncating remainder and the
    always-non-negative modulo `emod` built on it. */
module Torus {

  function Abs(b: int): (r: nat)
    ensures r == b || r == -b
  {
    if b < 0 then -b else b
  }

  /** C99's `a % b`: the quotient truncates toward zero, so the remainder
      takes the sign of the dividend and is smaller than `b` in magnitude. */
  function CRem(a: int, b: int): (r: int)
    requires b != 0
    ensures a >= 0 ==> 0 <= r < Abs(b)
    ensures a < 0 ==> 0 <= -r < Abs(b)
  {
    if a >= 0 then a % Abs(b) else -((-a) % Abs(b))
  }

  /** The C remainder differs from the dividend by a multiple of `b`. */
  lemma CRemCongruent(a: int, b: int)
    requires b != 0
    ensures (a - CRem(a, b)) % Abs(b) == 0
  {
    var m := Abs(b);
    if a >= 0 {
      var q, r := a / m, a % m;
      assert a == q * m + r;
      ModUnique(a - r, 0, m, q);
    } else {
      var q, r' := (-a) / m, (-a) % m;
      assert -a == q * m + r';
      assert a - (-r') == (-q) * m;
      ModUnique(a - (-r'), 0, m, -q);
    }
  }

  /** `emod(a, b)` is `(a % b + b) % b` with C's remainder. For a positive
      modulus the result is in `[0, b)`, so it can index an axis of length
      `b`; for a negative one it lies in `(b, 0]`. */
  function Emod(a: int, b: int): (r: int)
    requires b != 0
    ensures b > 0 ==> 0 <= r < b
    ensures b < 0 ==> b < r <= 0
  {
    CRem(CRem(a, b) + b, b)
  }

  /** `emod` is congruent to its argument; for a positive modulus it is the
      mathematical residue `a % b`, and it is the identity on `[0, b)`. */
  lemma EmodResidue(a: int, b: int)
    requires b != 0
    ensures (a - Emod(a, b)) % Abs(b) == 0
    ensures b > 0 ==> Emod(a, b) == a % b
    ensures b > 0 && 0 <= a < b ==> Emod(a, b) == a
  {
    EmodCongruent(a, b);
    if b > 0 {
      EmodPositive(a, b);
      if 0 <= a < b {
        ModUnique(a, a, b, 0);
      }
    }
  }

  lemma EmodCongruent(a: int, b: int)
    requires b != 0
    ensures (a - Emod(a, b)) % Abs(b) == 0
  {
    var c := CRem(a, b);
    var r := CRem(c + b, b);
    assert r == Emod(a, b);
    assert (a - c) % Abs(b) == 0 by {
      CRemCongruent(a, b);
    }
    assert (c + b - r) % Abs(b) == 0 by {
      CRemCongruent(c + b, b);
    }
    CongruentShift(a, c, r, b);
  }

  lemma EmodPositive(a: int, b: int)
    requires b > 0
    ensures Emod(a, b) == a % b
  {
    var r := Emod(a, b);
    assert (a - r) % b == 0 by {
      EmodCongruent(a, b);
    }
    assert a - r == ((a - r) / b) * b by {
      MultipleOf(a - r, b);
    }
    ModUnique(a, r, b, (a - r) / b);
  }

  /** A number divisible by a positive `m` is its quotient times `m`. */
  lemma MultipleOf(x: int, m: int)
    requires m > 0 && x % m == 0
    ensures x == (x / m) * m
  {
  }

  /** If `a ≡ c` and `c + b ≡ r` modulo `|b|`, then `a ≡ r`. */
  lemma CongruentShift(a: int, c: int, r: int, b: int)
    requires b != 0
    requires (a - c) % Abs(b) == 0
    requires (c + b - r) % Abs(b) == 0
    ensures (a - r) % Abs(b) == 0
  {
    var m := Abs(b);
    var k1 := (a - c) / m;
    var k2 := (c + b - r) / m;
    assert a - c == k1 * m;
    assert c + b - r == k2 * m;
    var s := if b < 0 then -1 else 1;
    assert b == s * m;
    assert a - r == (k1 + k2 - s) * m;
    ModUnique(a - r, 0, m, k1 + k2 - s);
  }

  /** A value `r` in `[0, |b|)` that differs from `x` by a multiple of `b`
      is `x % b`. */
  lemma ModUnique(x: int, r: int, b: int, j: int)
    requires b != 0
    requires 0 <= r < Abs(b)
    requires x - r == j * b
    ensures x % b == r
  {
    var q := x / b;
    assert x == q * b + x % b;
    assert x % b - r == (j - q) * b;
    ZeroOrLarge(j - q, b);
  }

  /** A multiple of `b` is either zero or at least `|b|` in magnitude. */
  lemma ZeroOrLarge(k: int, b: int)
    ensures k * b == 0 || Abs(k * b) >= Abs(b)
  {
    if k > 0 && b > 0 {
      assert (k - 1) * b >= 0;
    } else if k > 0 && b < 0 {
      assert (k - 1) * (-b) >= 0;
    } else if k < 0 && b > 0 {
      assert (-k - 1) * b >= 0;
    } else if k < 0 && b < 0 {
      assert (-k - 1) * (-b) >= 0;
    }
  }
}
