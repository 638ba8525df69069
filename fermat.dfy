/** Fermat's little theorem, from the binomial theorem, and the facts about
    primes that textbook RSA rests on: a prime dividing a product divides a
    factor, and two distinct primes dividing a number divide it together. */
module Fermat {
  import opened Arith
  import opened Euclid

  predicate IsPrime(p: nat)
  {
    p >= 2 && forall k :: 2 <= k < p ==> !Divides(k, p)
  }

  /** A number the prime does not divide is coprime to it. */
  lemma GcdWithPrime(a: nat, p: nat)
    requires IsPrime(p) && !Divides(p, a)
    ensures Gcd(a, p) == 1
  {
    var g := Gcd(a, p);
    GcdDivides(a, p);
    if g > p {
      DivModUnique(p, g, 0, p);
      assert false;
    }
    if g == p {
      assert false;
    }
    if 2 <= g < p {
      assert false;
    }
  }

  /** Euclid's lemma: a prime dividing a product divides one of the factors. */
  lemma PrimeDividesProduct(p: nat, a: nat, b: int)
    requires IsPrime(p) && Divides(p, a * b)
    ensures Divides(p, a) || Divides(p, b)
  {
    if !Divides(p, a) {
      GcdWithPrime(a, p);
      var r := Xgcd(a, p);
      var x, y := r.1, r.2;
      var w := (a * b) / p;
      DivMod(a * b, p);
      BezoutMultiple(a, b, p, x, y, w);
      MultipleDivides(p, w * x + b * y);
    }
  }

  lemma BezoutMultiple(a: int, b: int, p: int, x: int, y: int, w: int)
    requires a * x + p * y == 1 && a * b == p * w
    ensures b == p * (w * x + b * y)
  {
    calc {
      b;
      b * (a * x + p * y);
      { MulDistrib(b, a * x, p * y); }
      b * (a * x) + b * (p * y);
      { MulAssoc(b, a, x); MulAssoc(b, p, y); }
      (a * b) * x + p * (b * y);
      (p * w) * x + p * (b * y);
      { MulAssoc(p, w, x); MulDistrib(p, w * x, b * y); }
      p * (w * x + b * y);
    }
  }

  /** Binomial coefficients by Pascal's rule. */
  function Binom(n: nat, k: nat): nat
  {
    if k == 0 then 1 else if n == 0 then 0 else Binom(n - 1, k - 1) + Binom(n - 1, k)
  }

  lemma {:induction false} BinomAbove(n: nat, k: nat)
    requires k > n
    ensures Binom(n, k) == 0
  {
    if n > 0 {
      BinomAbove(n - 1, k - 1);
      BinomAbove(n - 1, k);
    }
  }

  lemma {:induction false} BinomDiagonal(n: nat)
    ensures Binom(n, n) == 1
  {
    if n > 0 {
      BinomDiagonal(n - 1);
      BinomAbove(n - 1, n);
    }
  }

  lemma {:induction false} BinomOne(n: nat)
    ensures Binom(n, 1) == n
  {
    if n > 0 {
      BinomOne(n - 1);
    }
  }

  /** The absorption identity k * C(n, k) == n * C(n-1, k-1). */
  lemma {:induction false} Absorption(n: nat, k: nat)
    requires n >= 1 && k >= 1
    ensures k * Binom(n, k) == n * Binom(n - 1, k - 1)
    decreases n
  {
    if k == 1 {
      BinomOne(n);
    } else if n == 1 {
      BinomAbove(1, k);
      BinomAbove(0, k - 1);
    } else {
      Absorption(n - 1, k);
      Absorption(n - 1, k - 1);
      var a, b, c := Binom(n - 2, k - 2), Binom(n - 2, k - 1), Binom(n - 1, k);
      assert Binom(n - 1, k - 1) == a + b;
      assert Binom(n, k) == (a + b) + c;
      AbsorptionStep(n, k, a, b, c);
    }
  }

  lemma AbsorptionStep(n: int, k: int, a: int, b: int, c: int)
    requires k * c == (n - 1) * b && (k - 1) * (a + b) == (n - 1) * a
    ensures k * ((a + b) + c) == n * (a + b)
  {
    MulDistrib(k, a + b, c);
    assert k * (a + b) == (k - 1) * (a + b) + (a + b);
    MulDistrib(n, a, b);
    assert n * a == (n - 1) * a + a;
    assert n * b == (n - 1) * b + b;
  }

  /** A prime divides every binomial coefficient C(p, k) with 0 < k < p. */
  lemma PrimeDividesBinom(p: nat, k: nat)
    requires IsPrime(p) && 0 < k < p
    ensures Divides(p, Binom(p, k))
  {
    Absorption(p, k);
    MultipleDivides(p, Binom(p - 1, k - 1));
    PrimeDividesProduct(p, k, Binom(p, k));
    DivModUnique(k, p, 0, k);
  }

  /** The sum of C(n, k) * a**k over k < j. */
  function BinomSum(n: nat, a: nat, j: nat): nat
  {
    if j == 0 then 0 else BinomSum(n, a, j - 1) + Binom(n, j - 1) * Pow(a, j - 1)
  }

  lemma {:induction false} PascalSum(n: nat, a: nat, j: nat)
    ensures BinomSum(n + 1, a, j + 1) == BinomSum(n, a, j + 1) + a * BinomSum(n, a, j)
  {
    if j > 0 {
      PascalSum(n, a, j - 1);
      var s, t := BinomSum(n, a, j), BinomSum(n, a, j - 1);
      var b1, b2 := Binom(n, j - 1), Binom(n, j);
      var q := Pow(a, j - 1);
      assert Binom(n + 1, j) == b1 + b2;
      assert Pow(a, j) == a * q;
      PascalStep(s, t, b1, b2, a, q);
    }
  }

  lemma PascalStep(s: int, t: int, b1: int, b2: int, a: int, q: int)
    ensures s + a * t + (b1 + b2) * (a * q) == (s + b2 * (a * q)) + a * (t + b1 * q)
  {
    MulDistrib(a, t, b1 * q);
    MulAssoc(a, b1, q);
    MulAssoc(b1, a, q);
  }

  /** The binomial theorem for (a + 1)**n. */
  lemma {:induction false} BinomialTheorem(n: nat, a: nat)
    ensures Pow(a + 1, n) == BinomSum(n, a, n + 1)
  {
    if n > 0 {
      var x := BinomSum(n - 1, a, n);
      BinomialTheorem(n - 1, a);
      PascalSum(n - 1, a, n);
      BinomAbove(n - 1, n);
      assert BinomSum(n - 1, a, n + 1) == x;
      assert BinomSum(n, a, n + 1) == x + a * x;
      assert Pow(a + 1, n) == (a + 1) * x;
    }
  }

  /** All terms of the expansion of (a + 1)**p except the outer two are
      multiples of p. */
  lemma {:induction false} MiddleTerms(p: nat, a: nat, j: nat)
    requires IsPrime(p) && 1 <= j <= p
    ensures Divides(p, BinomSum(p, a, j) - 1)
  {
    if j == 1 {
      MultipleDivides(p, 0);
    } else {
      MiddleTerms(p, a, j - 1);
      PrimeDividesBinom(p, j - 1);
      var u := (BinomSum(p, a, j - 1) - 1) / p;
      var v := Binom(p, j - 1) / p;
      DivMod(BinomSum(p, a, j - 1) - 1, p);
      DivMod(Binom(p, j - 1), p);
      SumOfMultiples(BinomSum(p, a, j) - 1, BinomSum(p, a, j - 1) - 1, Binom(p, j - 1), Pow(a, j - 1), p, u, v);
      MultipleDivides(p, u + v * Pow(a, j - 1));
    }
  }

  lemma SumOfMultiples(x: int, y: int, b: int, c: int, p: int, u: int, v: int)
    requires x == y + b * c && y == p * u && b == p * v
    ensures x == p * (u + v * c)
  {
    MulAssoc(p, v, c);
    MulDistrib(p, u, v * c);
  }

  /** (a + 1)**p and a**p + 1 agree modulo a prime p. */
  lemma Freshman(p: nat, a: nat)
    requires IsPrime(p)
    ensures Pow(a + 1, p) % p == (Pow(a, p) + 1) % p
  {
    BinomialTheorem(p, a);
    MiddleTerms(p, a, p);
    BinomDiagonal(p);
    var t := (BinomSum(p, a, p) - 1) / p;
    DivMod(BinomSum(p, a, p) - 1, p);
    assert Pow(a + 1, p) == Pow(a, p) + 1 + p * t;
    ModAddMultiple(Pow(a, p) + 1, p, t);
  }

  /** Fermat's little theorem: a**p == a modulo a prime p. */
  lemma {:induction false} FermatLittle(p: nat, a: nat)
    requires IsPrime(p)
    ensures Pow(a, p) % p == a % p
  {
    if a == 0 {
      assert Pow(0, p) == 0 * Pow(0, p - 1);
    } else {
      FermatLittle(p, a - 1);
      Freshman(p, a - 1);
      ModAddCongruent(Pow(a - 1, p), a - 1, 1, p);
    }
  }

  /** For `a` not divisible by p, a**(p-1) == 1 modulo p. */
  lemma FermatUnit(p: nat, a: nat)
    requires IsPrime(p) && !Divides(p, a)
    ensures Pow(a, p - 1) % p == 1
  {
    FermatLittle(p, a);
    var x := Pow(a, p - 1);
    assert Pow(a, p) == a * x;
    CongruentDiff(a * x, a, p);
    assert a * x - a == a * (x - 1);
    PrimeDividesProduct(p, a, x - 1);
    DivMod(x - 1, p);
    DivModUnique(x, p, (x - 1) / p, 1);
  }

  /** m**(1 + (p-1)*t) == m modulo a prime p, for every m. */
  lemma FermatExponent(p: nat, m: nat, t: nat)
    requires IsPrime(p)
    ensures Pow(m, 1 + (p - 1) * t) % p == m % p
  {
    var k := (p - 1) * t;
    assert Pow(m, 1 + k) == m * Pow(m, k);
    if Divides(p, m) {
      MulModZero(m, Pow(m, k), p);
    } else {
      UnitPower(p, m, t);
      MulModUnit(m, Pow(m, k), p);
    }
  }

  /** A number not divisible by the prime p raised to a multiple of p - 1
      is 1 modulo p. */
  lemma UnitPower(p: nat, m: nat, t: nat)
    requires IsPrime(p) && !Divides(p, m)
    ensures Pow(m, (p - 1) * t) % p == 1
  {
    FermatUnit(p, m);
    PowPow(m, p - 1, t);
    PowModBase(Pow(m, p - 1), t, p);
    PowOne(t);
    DivModUnique(1, p, 0, 1);
  }

  /** Two distinct primes that both divide x divide it together. */
  lemma DistinctPrimesDivide(p: nat, q: nat, x: int)
    requires IsPrime(p) && IsPrime(q) && p != q
    requires Divides(p, x) && Divides(q, x)
    ensures Divides(p * q, x)
  {
    var u := x / p;
    DivMod(x, p);
    assert x == p * u;
    PrimeDividesProduct(q, p, u);
    if Divides(q, p) {
      if q > p {
        DivModUnique(p, q, 0, p);
        assert false;
      }
      assert false;
    }
    var w := u / q;
    DivMod(u, q);
    MulAssoc(p, q, w);
    MultipleDivides(p * q, w);
  }
}
