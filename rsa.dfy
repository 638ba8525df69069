/** The textbook cipher of png_steganography.py: `generate_keypair`,
    `encrypt` and `decrypt`, with Python's three-argument `pow` as
    square-and-multiply modular exponentiation. Keys are the program's
    `(e, n)` and `(d, n)` pairs. There is no padding: a block m is sent as
    m**e mod n. */
module Rsa {
  import opened Arith
  import opened Numerals
  import opened Euclid
  import opened BlockCodec
  import opened Wrappers
  import opened Fermat

  datatype PublicKey = PublicKey(e: nat, n: nat)
  datatype PrivateKey = PrivateKey(d: nat, n: nat)
  datatype KeyPair = KeyPair(pub: PublicKey, sec: PrivateKey)

  /** Why `generate_keypair` produced no key: `random.randint(2, phi - 1)`
      raises on an empty range, and a finite supply of draws can run out
      before a coprime exponent turns up. */
  datatype KeyGenError = EmptyExponentRange | CandidatesExhausted

  /** `pow(base, exp, m)`: base**exp reduced modulo m, by repeated squaring. */
  function ModExp(base: nat, exp: nat, m: nat): (r: nat)
    requires m > 0
    ensures r == Pow(base, exp) % m
    decreases exp
  {
    if exp == 0 then 1 % m
    else if exp % 2 == 0 then
      var h := ModExp(base, exp / 2, m);
      PowAdd(base, exp / 2, exp / 2);
      ModMul(Pow(base, exp / 2), Pow(base, exp / 2), m);
      (h * h) % m
    else
      var h := ModExp(base, exp - 1, m);
      MulModRight(base, Pow(base, exp - 1), m);
      (base * h) % m
  }

  /** phi(n) for n = p*q with p and q prime: `(p - 1) * (q - 1)`. */
  function Totient(p: nat, q: nat): (phi: nat)
    requires p >= 1 && q >= 1
    ensures p >= 2 && q >= 2 ==> phi >= q - 1 && phi >= p - 1
  {
    TotientBound(p, q);
    (p - 1) * (q - 1)
  }

  /** For p, q >= 2, phi is at least each of p - 1 and q - 1, hence
      positive: the modulus key generation reduces by. */
  lemma TotientBound(p: nat, q: nat)
    requires p >= 1 && q >= 1
    ensures p >= 2 && q >= 2 ==> (p - 1) * (q - 1) >= q - 1 && (p - 1) * (q - 1) >= p - 1
  {
    if p >= 2 && q >= 2 {
      MulLeq(1, p - 1, q - 1);
      MulLeq(1, q - 1, p - 1);
    }
  }

  /** What `generate_keypair(p, q)` guarantees of the keys it returns: both
      carry the modulus p*q, and e*d == 1 modulo (p-1)*(q-1). */
  predicate KeysFrom(p: nat, q: nat, keys: KeyPair)
  {
    && p >= 2 && q >= 2
    && keys.pub.n == p * q && keys.sec.n == p * q
    && (keys.pub.e * keys.sec.d) % Totient(p, q) == 1
  }

  /** The index of the first draw at or after `from` that is coprime to
      `phi`, if any: which of the draws `generate_keypair` keeps. */
  function FirstCoprime(candidates: seq<nat>, phi: nat, from: nat): (r: Option<nat>)
    decreases |candidates| - from
    ensures r.Some? ==>
      && from <= r.value < |candidates| && Gcd(candidates[r.value], phi) == 1
      && forall k :: from <= k < r.value ==> Gcd(candidates[k], phi) != 1
    ensures r.None? <==> forall k :: from <= k < |candidates| ==> Gcd(candidates[k], phi) != 1
  {
    if from >= |candidates| then None
    else if Gcd(candidates[from], phi) == 1 then Some(from)
    else FirstCoprime(candidates, phi, from + 1)
  }

  /** `generate_keypair(p, q)`. The random exponent draws are the sequence
      `candidates` (each in [2, phi - 1], as `random.randint(2, phi - 1)`
      returns); the first one coprime to phi becomes `e`, and
      `d = xgcd(e, phi)[1] % phi`, the inverse of `e` modulo phi. */
  method GenerateKeypair(p: nat, q: nat, candidates: seq<nat>) returns (r: Result<KeyPair, KeyGenError>)
    requires p >= 2 && q >= 2
    requires forall i :: 0 <= i < |candidates| ==> 2 <= candidates[i] < Totient(p, q)
    ensures r == Failure(EmptyExponentRange) <==> Totient(p, q) < 3
    ensures r == Failure(CandidatesExhausted) <==>
      Totient(p, q) >= 3 && FirstCoprime(candidates, Totient(p, q), 0).None?
    ensures r.Success? ==>
      && FirstCoprime(candidates, Totient(p, q), 0).Some?
      && r.value.pub == PublicKey(candidates[FirstCoprime(candidates, Totient(p, q), 0).value], p * q)
      && r.value.sec.n == p * q
      && r.value.sec.d < Totient(p, q)
      && (r.value.pub.e * r.value.sec.d) % Totient(p, q) == 1
      && KeysFrom(p, q, r.value)
  {
    var n := p * q;
    var phi := Totient(p, q);
    if phi < 3 {
      return Failure(EmptyExponentRange);
    }
    if |candidates| == 0 {
      return Failure(CandidatesExhausted);
    }
    var i := 0;
    var e := candidates[0];
    while Gcd(e, phi) != 1
      invariant 0 <= i < |candidates| && e == candidates[i]
      invariant FirstCoprime(candidates, phi, i) == FirstCoprime(candidates, phi, 0)
      decreases |candidates| - i
    {
      if i + 1 == |candidates| {
        return Failure(CandidatesExhausted);
      }
      i := i + 1;
      e := candidates[i];
    }
    var d := Xgcd(e, phi).1 % phi;
    ModInverse(e, phi);
    r := Success(KeyPair(PublicKey(e, n), PrivateKey(d, n)));
  }

  /** `encrypt(pubkey, plaintext)` on the message's bytes: every block of
      `text2ints` under the key's block size, raised to e modulo n. Every
      ciphertext value lies in [0, n). */
  function Encrypt(pub: PublicKey, text: seq<nat>): (c: seq<nat>)
    requires pub.n > 0
    ensures var blocks := Text2Ints(text, BlockSize(pub.n));
      && |c| == |blocks|
      && forall i :: 0 <= i < |c| ==> c[i] == Pow(blocks[i], pub.e) % pub.n && c[i] < pub.n
  {
    var blocks := Text2Ints(text, BlockSize(pub.n));
    seq(|blocks|, i requires 0 <= i < |blocks| => ModExp(blocks[i], pub.e, pub.n))
  }

  /** `decrypt(seckey, ciphertext)` up to the bytes: every integer raised to
      d modulo n, then `ints2text` under the key's block size. */
  function Decrypt(sec: PrivateKey, ints: seq<nat>): (r: Result<seq<nat>, DecodeError>)
    requires sec.n > 0
    ensures r.Failure? <==>
      exists i :: 0 <= i < |ints| && Pow(ints[i], sec.d) % sec.n >= Pow(256, BlockSize(sec.n))
    ensures r.Success? ==> IsDigits(r.value, 256) && forall i :: 0 <= i < |r.value| ==> r.value[i] != 0
  {
    var plain := seq(|ints|, i requires 0 <= i < |ints| => ModExp(ints[i], sec.d, sec.n));
    assert forall i :: 0 <= i < |ints| ==> plain[i] == Pow(ints[i], sec.d) % sec.n;
    Ints2Text(plain, BlockSize(sec.n))
  }

  /** The blocks `decrypt` hands to `ints2text`: every integer raised to d
      modulo n, as three-argument `pow` computes it. */
  lemma DecryptedBlocks(sec: PrivateKey, ints: seq<nat>)
    requires sec.n > 0
    ensures seq(|ints|, i requires 0 <= i < |ints| => ModExp(ints[i], sec.d, sec.n))
      == seq(|ints|, i requires 0 <= i < |ints| => Pow(ints[i], sec.d) % sec.n)
  {
  }

  /** `Decrypt` is `ints2text` of the decrypted blocks. */
  lemma DecryptIsInts2Text(sec: PrivateKey, ints: seq<nat>)
    requires sec.n > 0
    ensures Decrypt(sec, ints) ==
      Ints2Text(seq(|ints|, i requires 0 <= i < |ints| => Pow(ints[i], sec.d) % sec.n), BlockSize(sec.n))
  {
    DecryptedBlocks(sec, ints);
  }

  /** Raising to `e` and then to `d` modulo `n` gives back every residue:
      the property a matching key pair has. */
  predicate Inverts(e: nat, d: nat, n: nat)
    requires n > 0
  {
    forall m: nat :: m < n ==> Pow(Pow(m, e) % n, d) % n == m
  }

  /** `decrypt(seckey, encrypt(pubkey, t)) == t` for a message without a
      zero byte, whenever the keys invert each other on residues and the
      modulus is at least 256 (so no block is reduced by it). */
  lemma DecryptEncrypt(pub: PublicKey, sec: PrivateKey, text: seq<nat>)
    requires pub.n == sec.n && pub.n >= 256 && Inverts(pub.e, sec.d, pub.n)
    requires IsDigits(text, 256) && forall i :: 0 <= i < |text| ==> text[i] != 0
    ensures Decrypt(sec, Encrypt(pub, text)) == Success(text)
  {
    var n, b := pub.n, BlockSize(pub.n);
    var blocks := Text2Ints(text, b);
    var c := Encrypt(pub, text);
    BlocksBelowModulus(text, n);
    DecryptIsInts2Text(sec, c);
    var plain := seq(|c|, i requires 0 <= i < |c| => Pow(c[i], sec.d) % n);
    assert plain == blocks;
    TextRoundTrip(text, b);
  }

  /** Textbook RSA is correct: for distinct primes p and q and exponents
      with e*d == 1 modulo (p-1)*(q-1), raising to e and then to d modulo
      p*q gives back every residue. */
  lemma RsaCorrect(p: nat, q: nat, e: nat, d: nat)
    requires IsPrime(p) && IsPrime(q) && p != q
    requires (e * d) % Totient(p, q) == 1
    ensures Inverts(e, d, p * q)
  {
    var n := p * q;
    forall m: nat | m < n
      ensures Pow(Pow(m, e) % n, d) % n == m
    {
      PowModBase(Pow(m, e), d, n);
      PowPow(m, e, d);
      RsaOnResidue(p, q, e * d, m);
    }
  }

  lemma RsaOnResidue(p: nat, q: nat, ed: nat, m: nat)
    requires IsPrime(p) && IsPrime(q) && p != q
    requires ed % Totient(p, q) == 1 && m < p * q
    ensures Pow(m, ed) % (p * q) == m
  {
    var x := Pow(m, ed);
    assert Totient(p, q) == (p - 1) * (q - 1) == (q - 1) * (p - 1);
    ResidueModPrime(p, q - 1, ed, m);
    ResidueModPrime(q, p - 1, ed, m);
    DistinctPrimesDivide(p, q, x - m);
    RemainderFromDivides(x, m, p * q);
  }

  /** m**ed == m modulo a prime p whenever ed == 1 modulo a multiple of
      p - 1. */
  lemma ResidueModPrime(p: nat, k: nat, ed: nat, m: nat)
    requires IsPrime(p) && k >= 1 && ed % ((p - 1) * k) == 1
    ensures Divides(p, Pow(m, ed) - m)
  {
    var kt := ExponentSplit(ed, p - 1, k);
    FermatExponent(p, m, kt);
    CongruentDiff(Pow(m, ed), m, p);
  }

  /** e*d == 1 modulo a*b means e*d == 1 + a*kt for some kt: one more than
      a multiple of the first factor. */
  lemma ExponentSplit(ed: nat, a: nat, b: nat) returns (kt: nat)
    requires a >= 1 && b >= 1 && ed % (a * b) == 1
    ensures ed == 1 + a * kt
  {
    var t := ed / (a * b);
    DivMod(ed, a * b);
    MulAssoc(a, b, t);
    kt := b * t;
  }

  lemma RemainderFromDivides(x: int, m: int, n: int)
    requires n > 0 && 0 <= m < n && Divides(n, x - m)
    ensures x % n == m
  {
    DivMod(x - m, n);
    DivModUnique(x, n, (x - m) / n, m);
  }

  /** `decrypt(seckey, encrypt(pubkey, t)) == t` for the keys
      `generate_keypair` returns from two distinct primes whose product is
      at least 256, and every message without a zero byte. */
  lemma KeyPairRoundTrip(p: nat, q: nat, keys: KeyPair, text: seq<nat>)
    requires IsPrime(p) && IsPrime(q) && p != q && p * q >= 256
    requires keys.pub.n == p * q && keys.sec.n == p * q
    requires (keys.pub.e * keys.sec.d) % Totient(p, q) == 1
    requires IsDigits(text, 256) && forall i :: 0 <= i < |text| ==> text[i] != 0
    ensures Decrypt(keys.sec, Encrypt(keys.pub, text)) == Success(text)
  {
    RsaCorrect(p, q, keys.pub.e, keys.sec.d);
    DecryptEncrypt(keys.pub, keys.sec, text);
  }
}
