/** `gcd` and `xgcd` of png_steganography.py: Euclid's algorithm and its
    extended form, and the modular inverse that key generation takes from it.
    The program only calls them on positive integers, so they are modelled
    on naturals (where Python's `%` and `//` agree with Dafny's). */
module Euclid {
  import opened Arith

  /** `gcd(a, b)`: `a if b == 0 else gcd(b, a % b)`. */
  function Gcd(a: nat, b: nat): nat
    decreases b
  {
    if b == 0 then a else Gcd(b, a % b)
  }

  /** `xgcd(a, b)`: returns `(g, x, y)` with `a*x + b*y == g`, the gcd.
      The base case is `(a, 1, 0)`; otherwise the recursive call on
      `(b, a % b)` yields `(g, y, x)` and `y` is then reduced by
      `x * (a // b)`. */
  function Xgcd(a: nat, b: nat): (r: (nat, int, int))
    decreases b
    ensures r.0 == Gcd(a, b)
    ensures a * r.1 + b * r.2 == r.0
  {
    if b == 0 then (a, 1, 0)
    else
      var (g, y, x) := Xgcd(b, a % b);
      BezoutStep(a, b, g, y, x);
      (g, x, y - x * (a / b))
  }

  /** The back-substitution step of the extended algorithm. */
  lemma BezoutStep(a: nat, b: nat, g: int, y: int, x: int)
    requires b > 0 && b * y + (a % b) * x == g
    ensures a * x + b * (y - x * (a / b)) == g
  {
    var q, r := a / b, a % b;
    calc {
      a * x + b * (y - x * q);
      (b * q + r) * x + b * y - b * (x * q);
      b * y + r * x;
    }
  }

  /** `d` divides `a` (for d > 0). */
  predicate Divides(d: nat, a: int)
    requires d > 0
  {
    a % d == 0
  }

  lemma MultipleDivides(d: nat, k: int)
    requires d > 0
    ensures Divides(d, d * k)
  {
    DivModUnique(d * k, d, k, 0);
  }

  /** The gcd divides both arguments (unless both are zero). */
  lemma {:induction false} GcdDivides(a: nat, b: nat)
    requires a > 0 || b > 0
    ensures Gcd(a, b) > 0 && Divides(Gcd(a, b), a) && Divides(Gcd(a, b), b)
    decreases b
  {
    if b == 0 {
      MultipleDivides(a, 1);
    } else {
      var g := Gcd(b, a % b);
      GcdDivides(b, a % b);
      var q, kb, kr := a / b, b / g, (a % b) / g;
      DivMod(a, b);
      DivMod(b, g);
      DivMod(a % b, g);
      CombineMultiples(a, b, q, a % b, g, kb, kr);
      MultipleDivides(g, kb * q + kr);
    }
  }

  /** If b and r are multiples of g, so is b*q + r. */
  lemma CombineMultiples(a: int, b: int, q: int, r: int, g: int, kb: int, kr: int)
    requires a == b * q + r && b == g * kb && r == g * kr
    ensures a == g * (kb * q + kr)
  {
    MulAssoc(g, kb, q);
    MulDistrib(g, kb * q, kr);
  }

  /** Every common divisor divides the gcd: it is the greatest. */
  lemma GcdGreatest(a: nat, b: nat, d: nat)
    requires d > 0 && Divides(d, a) && Divides(d, b)
    ensures Divides(d, Gcd(a, b))
  {
    var (g, x, y) := Xgcd(a, b);
    var ka, kb := a / d, b / d;
    DivMod(a, d);
    DivMod(b, d);
    LinearCombination(a, b, x, y, d, ka, kb);
    MultipleDivides(d, ka * x + kb * y);
  }

  lemma LinearCombination(a: int, b: int, x: int, y: int, d: int, ka: int, kb: int)
    requires a == d * ka && b == d * kb
    ensures a * x + b * y == d * (ka * x + kb * y)
  {
    MulAssoc(d, ka, x);
    MulAssoc(d, kb, y);
    MulDistrib(d, ka * x, kb * y);
  }

  /** `d = xgcd(e, phi)[1] % phi` is the inverse of `e` modulo `phi`
      whenever `gcd(e, phi) == 1`: it lies in [0, phi) and e*d = 1 (mod phi). */
  lemma ModInverse(e: nat, phi: nat)
    requires phi > 1 && Gcd(e, phi) == 1
    ensures var d := Xgcd(e, phi).1 % phi;
      0 <= d < phi && (e * d) % phi == 1
  {
    var r := Xgcd(e, phi);
    InverseFromBezout(e, phi, r.1, r.2);
  }

  lemma InverseFromBezout(e: int, phi: int, x: int, y: int)
    requires phi > 1 && e * x + phi * y == 1
    ensures (e * (x % phi)) % phi == 1
  {
    MulModRight(e, x, phi);
    assert e * x == 1 + phi * (-y);
    ModAddMultiple(1, phi, -y);
    DivModUnique(1, phi, 0, 1);
  }

  /** The textbook key p = 61, q = 53: phi = 3120, e = 17 is coprime to it,
      and `xgcd(17, 3120)[1] % 3120` is the private exponent 2753. */
  lemma TextbookInverse()
    ensures Gcd(17, 3120) == 1
    ensures Xgcd(17, 3120).1 % 3120 == 2753 && (17 * 2753) % 3120 == 1
  {
    assert Xgcd(1, 0) == (1, 1, 0);
    assert Xgcd(8, 1) == (1, 0, 1);
    assert Xgcd(9, 8) == (1, 1, -1);
    assert Xgcd(17, 9) == (1, -1, 2);
    assert Xgcd(3120, 17) == (1, 2, -367);
    assert Xgcd(17, 3120) == (1, -367, 2);
  }
}
