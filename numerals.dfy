/** Positional numerals, most significant digit first. One development serves
    both of the program's encodings: base 256 for `int.from_bytes(.., "big")`
    and `int.to_bytes(.., "big")`, base 2 for `bin`, `format(.., '08b')`,
    `str.zfill` and `int(.., 2)`. Digit strings are `seq<nat>`; a bit string
    of the program (a `str` of '0' and '1') is a digit string in base 2. */
module Numerals {
  import opened Arith

  predicate IsDigits(ds: seq<nat>, base: nat)
  {
    forall i :: 0 <= i < |ds| ==> ds[i] < base
  }

  lemma DigitsAppend(a: seq<nat>, b: seq<nat>, base: nat)
    requires IsDigits(a, base) && IsDigits(b, base)
    ensures IsDigits(a + b, base)
  {
    assert forall i :: 0 <= i < |a + b| ==> (a + b)[i] == (if i < |a| then a[i] else b[i - |a|]);
  }

  /** The number a big-endian digit string denotes. */
  function Value(ds: seq<nat>, base: nat): nat
  {
    if ds == [] then 0 else Value(ds[..|ds| - 1], base) * base + ds[|ds| - 1]
  }

  function Zeros(k: nat): seq<nat>
  {
    seq(k, _ => 0)
  }

  /** The `w` low-order digits of `x`, most significant first; for base 256
      and x < 256**w this is `x.to_bytes(w, "big")`. */
  function ToDigits(x: nat, base: nat, w: nat): (r: seq<nat>)
    requires base >= 2
    ensures |r| == w && IsDigits(r, base)
    decreases w
  {
    if w == 0 then [] else ToDigits(x / base, base, w - 1) + [x % base]
  }

  /** `bin(x)[2:]`: the shortest binary digit string of `x`, "0" for zero. */
  function Bin(x: nat): seq<nat>
  {
    if x < 2 then [x] else Bin(x / 2) + [x % 2]
  }

  /** `s.zfill(w)`: left-pad with zeros up to length `w`, never truncate. */
  function ZFill(s: seq<nat>, w: nat): seq<nat>
  {
    if |s| >= w then s else Zeros(w - |s|) + s
  }

  /** `bin(x)[2:].zfill(w)`, which is also `format(x, '0wb')` for x >= 0. */
  function Width(x: nat, w: nat): seq<nat>
  {
    ZFill(Bin(x), w)
  }

  /** `[Value(ds[i:i+w]) for i in range(0, len(ds), w)]`; the last chunk is
      shorter when `w` does not divide the length, as Python slicing is. */
  function Chunks(ds: seq<nat>, w: nat, base: nat): seq<nat>
    requires w > 0
    decreases |ds|
  {
    if ds == [] then []
    else
      var k := Min(w, |ds|);
      [Value(ds[..k], base)] + Chunks(ds[k..], w, base)
  }

  lemma {:induction false} ValueBound(ds: seq<nat>, base: nat)
    requires IsDigits(ds, base)
    ensures Value(ds, base) < Pow(base, |ds|)
  {
    if ds != [] {
      var pre := ds[..|ds| - 1];
      ValueBound(pre, base);
      DigitStep(Value(pre, base), ds[|ds| - 1], Pow(base, |pre|), base);
    }
  }

  lemma {:induction false} ValueConcat(a: seq<nat>, b: seq<nat>, base: nat)
    ensures Value(a + b, base) == Value(a, base) * Pow(base, |b|) + Value(b, base)
  {
    if b == [] {
      assert a + b == a;
    } else {
      var b' := b[..|b| - 1];
      assert (a + b)[..|a + b| - 1] == a + b';
      ValueConcat(a, b', base);
      ShiftDigit(Value(a, base), Pow(base, |b'|), Value(b', base), base, b[|b| - 1]);
    }
  }

  lemma {:induction false} ValueZeros(k: nat, base: nat)
    ensures Value(Zeros(k), base) == 0
  {
    if k > 0 {
      assert Zeros(k)[..k - 1] == Zeros(k - 1);
      ValueZeros(k - 1, base);
    }
  }

  /** Leading zeros do not change the value: what makes `zfill` harmless. */
  lemma ValueLeadingZeros(k: nat, ds: seq<nat>, base: nat)
    ensures Value(Zeros(k) + ds, base) == Value(ds, base)
  {
    ValueConcat(Zeros(k), ds, base);
    ValueZeros(k, base);
  }

  /** Reading back `w` digits gives the number modulo base**w. */
  lemma {:induction false} ToDigitsValue(x: nat, base: nat, w: nat)
    requires base >= 2
    ensures Value(ToDigits(x, base, w), base) == x % Pow(base, w)
    decreases w
  {
    if w > 0 {
      var t := ToDigits(x / base, base, w - 1);
      var ds := ToDigits(x, base, w);
      assert ds[..w - 1] == t && ds[w - 1] == x % base;
      assert Value(ds, base) == Value(t, base) * base + x % base;
      ToDigitsValue(x / base, base, w - 1);
      ModMulDecompose(x, base, Pow(base, w - 1));
      assert Pow(base, w) == base * Pow(base, w - 1);
    }
  }

  /** A digit string is determined by its length and its value. */
  lemma {:induction false} ToDigitsOfValue(ds: seq<nat>, base: nat)
    requires base >= 2 && IsDigits(ds, base)
    ensures ToDigits(Value(ds, base), base, |ds|) == ds
  {
    if ds != [] {
      var pre, last := ds[..|ds| - 1], ds[|ds| - 1];
      DivModUnique(Value(ds, base), base, Value(pre, base), last);
      ToDigitsOfValue(pre, base);
      assert ds == pre + [last];
    }
  }

  /** The number and the digit string round-trip when the number fits. */
  lemma DigitsRoundTrip(x: nat, base: nat, w: nat)
    requires base >= 2 && x < Pow(base, w)
    ensures Value(ToDigits(x, base, w), base) == x
  {
    ToDigitsValue(x, base, w);
    DivModUnique(x, Pow(base, w), 0, x);
  }

  /** Only the number modulo base**w is visible in its `w` low digits. */
  lemma ToDigitsMod(x: nat, base: nat, w: nat)
    requires base >= 2
    ensures ToDigits(x, base, w) == ToDigits(x % Pow(base, w), base, w)
  {
    ToDigitsOfValue(ToDigits(x, base, w), base);
    ToDigitsValue(x, base, w);
  }

  /** The last `m` of the `w` low digits are the `m` low digits. */
  lemma {:induction false} ToDigitsSuffix(x: nat, base: nat, w: nat, m: nat)
    requires base >= 2 && m <= w
    ensures ToDigits(x, base, w)[w - m..] == ToDigits(x, base, m)
    decreases m
  {
    if m > 0 {
      ToDigitsSuffix(x / base, base, w - 1, m - 1);
      SuffixOfAppend(ToDigits(x / base, base, w - 1), x % base, w - m);
    }
  }

  lemma SuffixOfAppend(t: seq<nat>, d: nat, j: nat)
    requires j <= |t|
    ensures (t + [d])[j..] == t[j..] + [d]
  {}

  lemma {:induction false} BinValue(x: nat)
    ensures IsDigits(Bin(x), 2) && 1 <= |Bin(x)| && Value(Bin(x), 2) == x
  {
    if x >= 2 {
      BinValue(x / 2);
      assert Bin(x)[..|Bin(x)| - 1] == Bin(x / 2);
    } else {
      assert Bin(x)[..0] == [];
    }
  }

  /** `bin(x)[2:]` has at most `w` digits exactly when x < 2**w. */
  lemma {:induction false} BinLength(x: nat, w: nat)
    requires w >= 1
    ensures |Bin(x)| <= w <==> x < Pow(2, w)
    decreases w
  {
    if x < Pow(2, w) {
      if x >= 2 {
        assert w >= 2;
        BinLength(x / 2, w - 1);
      }
    } else {
      BinValue(x);
      ValueBound(Bin(x), 2);
      if |Bin(x)| <= w {
        PowMonotone(2, |Bin(x)|, w);
      }
    }
  }

  /** A zero-filled binary string of a value below 2**w is its `w` low bits,
      so it has exactly `w` digits and reads back as the value. */
  lemma WidthIsToDigits(x: nat, w: nat)
    requires w >= 1 && x < Pow(2, w)
    ensures Width(x, w) == ToDigits(x, 2, w)
  {
    BinValue(x);
    BinLength(x, w);
    var z := Width(x, w);
    if |Bin(x)| < w {
      ValueLeadingZeros(w - |Bin(x)|, Bin(x), 2);
    }
    assert |z| == w && IsDigits(z, 2) && Value(z, 2) == x;
    ToDigitsOfValue(z, 2);
  }

  /** `bin(x)[2:].zfill(w)` is exactly `w` characters long if and only if
      x < 2**w; a larger value overflows the field instead of wrapping. */
  lemma WidthLength(x: nat, w: nat)
    requires w >= 1
    ensures |Width(x, w)| == w <==> x < Pow(2, w)
    ensures |Width(x, w)| >= w
  {
    BinLength(x, w);
  }

  lemma {:induction false} ChunksLength(ds: seq<nat>, w: nat, base: nat)
    requires w > 0
    ensures |Chunks(ds, w, base)| == (|ds| + w - 1) / w
  {
    if ds == [] {
      DivModUnique(w - 1, w, 0, w - 1);
    } else if |ds| <= w {
      assert ds[Min(w, |ds|)..] == [];
      DivModUnique(|ds| + w - 1, w, 1, |ds| - 1);
    } else {
      calc {
        |Chunks(ds, w, base)|;
        1 + |Chunks(ds[w..], w, base)|;
        { ChunksLength(ds[w..], w, base); }
        1 + (|ds| - 1) / w;
        { DivStep(|ds| - 1, w); }
        (|ds| + w - 1) / w;
      }
    }
  }

  /** A w-bit numeral in front of the rest is cut off as one chunk whose
      value is the number written. */
  lemma ChunkOfWidth(x: nat, rest: seq<nat>, w: nat)
    requires w >= 1 && x < Pow(2, w)
    ensures Chunks(Width(x, w) + rest, w, 2) == [x] + Chunks(rest, w, 2)
  {
    WidthIsToDigits(x, w);
    WidthLength(x, w);
    DigitsRoundTrip(x, 2, w);
    ChunksCons(Width(x, w), rest, w, 2);
  }

  /** A full-width leading chunk is read as one number. */
  lemma ChunksCons(a: seq<nat>, b: seq<nat>, w: nat, base: nat)
    requires w > 0 && |a| == w
    ensures Chunks(a + b, w, base) == [Value(a, base)] + Chunks(b, w, base)
  {
    assert (a + b)[..w] == a;
    assert (a + b)[w..] == b;
  }

  /** Every chunk of a digit string fits in `w` digits. */
  lemma {:induction false} ChunksBound(ds: seq<nat>, w: nat, base: nat)
    requires w > 0 && base >= 1 && IsDigits(ds, base)
    ensures forall i :: 0 <= i < |Chunks(ds, w, base)| ==> Chunks(ds, w, base)[i] < Pow(base, w)
    decreases |ds|
  {
    if ds != [] {
      var k := Min(w, |ds|);
      ValueBound(ds[..k], base);
      PowMonotone(base, k, w);
      ChunksBound(ds[k..], w, base);
    }
  }
}
