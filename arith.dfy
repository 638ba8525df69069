/** Integer facts shared by the cipher and the bit packing: powers and the
    uniqueness of Euclidean division. Python's `//` and `%` floor, Dafny's
    are Euclidean; the two agree whenever the divisor is positive, which is
    the only case the program uses. */
module Arith {

  /** `base ** k` for natural numbers. */
  function Pow(base: nat, k: nat): (r: nat)
    ensures base > 0 ==> r > 0
  {
    if k == 0 then 1 else base * Pow(base, k - 1)
  }

  function Min(a: int, b: int): int { if a <= b then a else b }

  /** Euclidean division is unique: any decomposition x == d*q + r with
      0 <= r < d is the one `/` and `%` compute. */
  lemma DivModUnique(x: int, d: int, q: int, r: int)
    requires d > 0 && 0 <= r < d && x == d * q + r
    ensures x / d == q && x % d == r
  {
    var q0, r0 := x / d, x % d;
    assert d * (q - q0) == r0 - r;
    if q - q0 >= 1 {
      MulLeq(1, q - q0, d);
      assert false;
    } else if q - q0 <= -1 {
      MulLeq(1, q0 - q, d);
      assert false;
    }
  }

  lemma DivMod(x: int, d: int)
    requires d > 0
    ensures x == d * (x / d) + x % d && 0 <= x % d < d
  {}

  lemma MulAssoc(a: int, b: int, c: int)
    ensures a * (b * c) == (a * b) * c
  {}

  lemma MulDistrib(a: int, b: int, c: int)
    ensures a * (b + c) == a * b + a * c
  {}

  lemma MulLeq(a: int, b: int, c: nat)
    requires a <= b
    ensures a * c <= b * c
  {}

  /** One more digit below `base` keeps a number below the next power. */
  lemma DigitStep(v: int, digit: int, p: int, base: int)
    requires 0 <= v < p && 0 <= digit < base
    ensures v * base + digit < base * p
  {
    MulLeq(v + 1, p, base);
  }

  /** Appending a digit to a number written after a block of `p`. */
  lemma ShiftDigit(a: int, p: int, b: int, base: int, digit: int)
    ensures (a * p + b) * base + digit == a * (base * p) + (b * base + digit)
  {
    MulDistrib(base, a * p, b);
    MulAssoc(a, p, base);
  }

  /** Position i of a run of n blocks of width w lies in block i / w, at
      offset i % w. */
  lemma BlockOf(i: int, w: int, n: int)
    requires w > 0 && 0 <= i < n * w
    ensures 0 <= i / w < n && 0 <= i % w < w && i == (i / w) * w + i % w
  {
    DivMod(i, w);
    if i / w >= n {
      MulLeq(n, i / w, w);
    }
  }

  /** Adding a multiple of the modulus does not change the remainder. */
  lemma ModAddMultiple(x: int, d: int, k: int)
    requires d > 0
    ensures (x + d * k) % d == x % d
  {
    DivModUnique(x + d * k, d, x / d + k, x % d);
  }

  /** Remainders can be taken before multiplying. */
  lemma ModMul(a: int, b: int, d: int)
    requires d > 0
    ensures (a * b) % d == ((a % d) * (b % d)) % d
  {
    var qa, ra := a / d, a % d;
    var qb, rb := b / d, b % d;
    calc {
      a * b;
      (d * qa + ra) * (d * qb + rb);
      ra * rb + d * (qa * d * qb + qa * rb + ra * qb);
    }
    ModAddMultiple(ra * rb, d, qa * d * qb + qa * rb + ra * qb);
  }

  /** Multiplying by a number that is 1 modulo d keeps the remainder. */
  lemma MulModUnit(a: int, b: int, d: int)
    requires d > 1 && b % d == 1
    ensures (a * b) % d == a % d
  {
    ModMul(a, b, d);
    DivModUnique(a % d, d, 0, a % d);
  }

  /** A multiple of d times anything is a multiple of d. */
  lemma MulModZero(a: int, b: int, d: int)
    requires d > 0 && a % d == 0
    ensures (a * b) % d == 0
  {
    ModMul(a, b, d);
  }

  /** Reducing the right factor first does not change the product's remainder. */
  lemma MulModRight(e: int, x: int, phi: int)
    requires phi > 0
    ensures (e * (x % phi)) % phi == (e * x) % phi
  {
    ModMul(e, x % phi, phi);
    ModMul(e, x, phi);
    DivModUnique(x % phi, phi, 0, x % phi);
  }

  lemma DivStep(x: nat, w: nat)
    requires w > 0
    ensures (x + w) / w == x / w + 1
  {
    DivModUnique(x + w, w, x / w + 1, x % w);
  }

  /** x % (b*m) splits into the digit x % b and the higher part. */
  lemma ModMulDecompose(x: nat, b: nat, m: nat)
    requires b > 0 && m > 0
    ensures x % (b * m) == ((x / b) % m) * b + x % b
  {
    var q := x / b;
    var r := ((x / b) % m) * b + x % b;
    assert q == m * (q / m) + q % m;
    calc {
      x;
      b * q + x % b;
      b * (m * (q / m) + q % m) + x % b;
      (b * m) * (q / m) + r;
    }
    MulLeq(q % m, m - 1, b);
    DivModUnique(x, b * m, q / m, r);
  }

  lemma {:induction false} PowAdd(base: nat, j: nat, k: nat)
    ensures Pow(base, j + k) == Pow(base, j) * Pow(base, k)
  {
    if k > 0 {
      PowAdd(base, j, k - 1);
      calc {
        Pow(base, j + k);
        base * Pow(base, j + k - 1);
        base * (Pow(base, j) * Pow(base, k - 1));
        { MulAssoc(base, Pow(base, j), Pow(base, k - 1));
          MulAssoc(Pow(base, j), base, Pow(base, k - 1)); }
        Pow(base, j) * (base * Pow(base, k - 1));
        Pow(base, j) * Pow(base, k);
      }
    }
  }

  lemma {:induction false} PowMonotone(base: nat, j: nat, k: nat)
    requires base >= 1 && j <= k
    ensures Pow(base, j) <= Pow(base, k)
  {
    if j < k {
      PowMonotone(base, j, k - 1);
      MulLeq(1, base, Pow(base, k - 1));
    }
  }

  /** 2**k outgrows k, which bounds the block-size search. */
  lemma {:induction false} PowGreater(k: nat)
    ensures k < Pow(2, k)
  {
    if k > 0 {
      PowGreater(k - 1);
    }
  }

  /** base**(j*k) == (base**j)**k, so 256**b == 2**(8*b). */
  lemma {:induction false} PowPow(base: nat, j: nat, k: nat)
    ensures Pow(base, j * k) == Pow(Pow(base, j), k)
  {
    if k > 0 {
      PowPow(base, j, k - 1);
      assert j * k == j + j * (k - 1);
      PowAdd(base, j, j * (k - 1));
    }
  }

  /** Adding the same amount to congruent numbers keeps them congruent. */
  lemma ModAddCongruent(x: int, y: int, c: int, d: int)
    requires d > 0 && x % d == y % d
    ensures (x + c) % d == (y + c) % d
  {
    var r := x % d;
    DivMod(x, d);
    DivMod(y, d);
    ModAddMultiple(r + c, d, x / d);
    ModAddMultiple(r + c, d, y / d);
  }

  /** Congruent numbers differ by a multiple of the modulus. */
  lemma CongruentDiff(x: int, y: int, d: int)
    requires d > 0 && x % d == y % d
    ensures (x - y) % d == 0
  {
    DivMod(x, d);
    DivMod(y, d);
    assert x - y == d * (x / d - y / d);
    DivModUnique(x - y, d, x / d - y / d, 0);
  }

  /** The base of a power can be reduced first. */
  lemma {:induction false} PowModBase(x: nat, k: nat, m: nat)
    requires m > 0
    ensures Pow(x, k) % m == Pow(x % m, k) % m
  {
    if k > 0 {
      PowModBase(x, k - 1, m);
      ModMul(x, Pow(x, k - 1), m);
      ModMul(x % m, Pow(x % m, k - 1), m);
      DivModUnique(x % m, m, 0, x % m);
    }
  }

  lemma {:induction false} PowOne(k: nat)
    ensures Pow(1, k) == 1
  {
    if k > 0 {
      PowOne(k - 1);
    }
  }
}
