/** The block encoding of png_steganography.py: `find_blocksize`,
    `text2ints` and `ints2text`. A message is a byte string (a digit string in
    base 256); it is zero-padded to a whole number of `m`-byte blocks, each
    read as a big-endian integer. Decoding writes each integer back as `m`
    big-endian bytes and keeps what comes before the first zero byte. */
module BlockCodec {
  import opened Arith
  import opened Numerals
  import opened Search
  import opened Wrappers

  /** The loop condition of `find_blocksize` fails for `b`: a block one byte
      wider than `b` has a maximum value of at least `n`. */
  predicate WideEnough(b: nat, n: nat)
  {
    Pow(2, 8 * (b + 1)) - 1 >= n
  }

  /** The search `find_blocksize` performs, from a given start. */
  function BlockSizeFrom(n: nat, b: nat): (r: nat)
    requires b >= 1
    decreases n - b
    ensures r >= b && WideEnough(r, n)
  {
    if WideEnough(b, n) then b
    else
      PowGreater(8 * (b + 1));
      BlockSizeFrom(n, b + 1)
  }

  function BlockSize(n: nat): nat
  {
    BlockSizeFrom(n, 1)
  }

  lemma {:induction false} BlockSizeFromLeast(n: nat, b: nat, c: nat)
    requires 1 <= b <= c < BlockSizeFrom(n, b)
    ensures !WideEnough(c, n)
    decreases n - b
  {
    if c > b {
      PowGreater(8 * (b + 1));
      BlockSizeFromLeast(n, b + 1, c);
    }
  }

  /** `find_blocksize(n)` is the least b >= 1 whose loop condition fails. */
  lemma BlockSizeLeast(n: nat)
    ensures BlockSize(n) >= 1 && WideEnough(BlockSize(n), n)
    ensures forall c :: 1 <= c < BlockSize(n) ==> !WideEnough(c, n)
  {
    forall c | 1 <= c < BlockSize(n)
      ensures !WideEnough(c, n)
    {
      BlockSizeFromLeast(n, 1, c);
    }
  }

  /** A larger modulus never gets a smaller block. */
  lemma BlockSizeMonotone(n1: nat, n2: nat)
    requires n1 <= n2
    ensures BlockSize(n1) <= BlockSize(n2)
  {
    BlockSizeLeast(n1);
    BlockSizeLeast(n2);
    assert WideEnough(BlockSize(n2), n1);
  }

  /** The least wide-enough block size is unique. */
  lemma BlockSizeUnique(n: nat, b: nat)
    requires b >= 1 && WideEnough(b, n)
    requires forall c :: 1 <= c < b ==> !WideEnough(c, n)
    ensures b == BlockSize(n)
  {
    BlockSizeLeast(n);
    assert WideEnough(BlockSize(n), n);
  }

  /** `find_blocksize`: start at 1 and widen while two to the power of the
      next width, minus one, is still below `n`. */
  method FindBlocksize(n: nat) returns (b: nat)
    ensures b >= 1 && WideEnough(b, n)
    ensures forall c :: 1 <= c < b ==> !WideEnough(c, n)
    ensures b == BlockSize(n)
  {
    b := 1;
    while Pow(2, 8 * (b + 1)) - 1 < n
      invariant b >= 1
      invariant forall c :: 1 <= c < b ==> !WideEnough(c, n)
      decreases n - b
    {
      PowGreater(8 * (b + 1));
      b := b + 1;
    }
    BlockSizeUnique(n, b);
  }

  /** `(m - len % m) % m`: the zero bytes `text2ints` appends. */
  function PadLength(len: nat, m: nat): (r: nat)
    requires m > 0
    ensures r < m && (len + r) % m == 0
  {
    PadLengthFacts(len, m);
    (m - len % m) % m
  }

  lemma PadLengthFacts(len: nat, m: nat)
    requires m > 0
    ensures 0 <= (m - len % m) % m < m && (len + (m - len % m) % m) % m == 0
  {
    var q, r0 := len / m, len % m;
    DivMod(len, m);
    if r0 == 0 {
      DivModUnique(m, m, 1, 0);
      DivModUnique(len, m, q, 0);
    } else {
      DivModUnique(m - r0, m, 0, m - r0);
      DivModUnique(len + (m - r0), m, q + 1, 0);
    }
  }

  function Padded(t: seq<nat>, m: nat): seq<nat>
    requires m > 0
  {
    t + Zeros(PadLength(|t|, m))
  }

  /** `text2ints(t, m)`: the padded bytes cut into `m`-byte big-endian
      integers; there are ceil(len(t) / m) of them, each below 256**m. */
  function Text2Ints(t: seq<nat>, m: nat): (r: seq<nat>)
    requires m > 0
    ensures |r| == (|t| + m - 1) / m
    ensures IsDigits(t, 256) ==> forall i :: 0 <= i < |r| ==> r[i] < Pow(256, m)
  {
    var padded := Padded(t, m);
    ChunksLength(padded, m, 256);
    BlockCount(|t|, PadLength(|t|, m), m);
    if IsDigits(t, 256) then
      assert IsDigits(padded, 256);
      ChunksBound(padded, m, 256);
      Chunks(padded, m, 256)
    else
      Chunks(padded, m, 256)
  }

  /** Padding to a multiple of m does not change the count of m-blocks. */
  lemma BlockCount(len: nat, pad: nat, m: nat)
    requires m > 0 && pad < m && (len + pad) % m == 0
    ensures (len + pad + m - 1) / m == (len + m - 1) / m
  {
    var k := (len + pad) / m;
    DivMod(len + pad, m);
    DivModUnique(len + pad + m - 1, m, k, m - 1);
    DivModUnique(len + m - 1, m, k, m - 1 - pad);
  }

  /** `b"".join(i.to_bytes(m, "big") for i in ints)`; `None` stands for the
      OverflowError raised by an integer that does not fit in `m` bytes. */
  function JoinBlocks(ints: seq<nat>, m: nat): (r: Option<seq<nat>>)
    ensures r.None? <==> exists i :: 0 <= i < |ints| && ints[i] >= Pow(256, m)
    ensures r.Some? ==> |r.value| == m * |ints| && IsDigits(r.value, 256)
  {
    if ints == [] then Some([])
    else if ints[0] >= Pow(256, m) then None
    else
      match JoinBlocks(ints[1..], m)
      case None =>
        assert forall i :: 0 <= i < |ints[1..]| ==> ints[1..][i] == ints[i + 1];
        None
      case Some(rest) =>
        assert forall i :: 1 <= i < |ints| ==> ints[i] == ints[1..][i - 1];
        Some(ToDigits(ints[0], 256, m) + rest)
  }

  datatype DecodeError = BlockOverflow

  /** `ints2text(ints, m)` without the UTF-8 decoding: the joined bytes up to
      the first zero byte, or the overflow error path. */
  function Ints2Text(ints: seq<nat>, m: nat): (r: Result<seq<nat>, DecodeError>)
    ensures r.Failure? <==> exists i :: 0 <= i < |ints| && ints[i] >= Pow(256, m)
    ensures r.Success? ==> IsDigits(r.value, 256) && forall i :: 0 <= i < |r.value| ==> r.value[i] != 0
  {
    match JoinBlocks(ints, m)
    case None => Failure(BlockOverflow)
    case Some(bytes) =>
      var head := SplitHead(bytes, [0]);
      assert forall i :: 0 <= i < |head| ==> head[i] != 0 by {
        forall i | 0 <= i < |head|
          ensures head[i] != 0
        {
          assert !OccursAt(bytes, [0], i);
          assert bytes[i..i + 1] == [bytes[i]];
        }
      }
      Success(head)
  }

  /** Cutting a whole number of blocks and joining them back is the identity. */
  lemma {:induction false} JoinChunks(ds: seq<nat>, m: nat)
    requires m > 0 && IsDigits(ds, 256) && |ds| % m == 0
    ensures JoinBlocks(Chunks(ds, m, 256), m) == Some(ds)
    decreases |ds|
  {
    if ds != [] {
      DivMod(|ds|, m);
      assert |ds| >= m;
      var head, tail := ds[..m], ds[m..];
      assert ds == head + tail;
      ChunksCons(head, tail, m, 256);
      ValueBound(head, 256);
      ToDigitsOfValue(head, 256);
      ModAddMultiple(|tail|, m, 1);
      JoinChunks(tail, m);
      assert Chunks(ds, m, 256)[1..] == Chunks(tail, m, 256);
    }
  }

  /** `ints2text(text2ints(t, m), m)` gives back every byte string without
      a zero byte (the zero byte is the end-of-text marker). */
  lemma TextRoundTrip(t: seq<nat>, m: nat)
    requires m > 0 && IsDigits(t, 256)
    requires forall i :: 0 <= i < |t| ==> t[i] != 0
    ensures Ints2Text(Text2Ints(t, m), m) == Success(t)
  {
    var padded := Padded(t, m);
    assert IsDigits(padded, 256);
    JoinChunks(padded, m);
    HeadBeforePadding(t, PadLength(|t|, m));
  }

  /** Splitting at the first zero byte strips the padding again. */
  lemma HeadBeforePadding(t: seq<nat>, pad: nat)
    requires forall i :: 0 <= i < |t| ==> t[i] != 0
    ensures SplitHead(t + Zeros(pad), [0]) == t
  {
    var padded := t + Zeros(pad);
    forall q: nat | q < |t|
      ensures !OccursAt(padded, [0], q)
    {
      assert padded[q..q + 1] == [t[q]];
    }
    if pad > 0 {
      assert padded[|t|..|t| + 1] == [0];
      SplitHeadAtFirst(padded, [0], |t|);
    } else {
      assert padded == t;
      SplitHeadNone(padded, [0]);
    }
  }

  /** For a modulus of at least 256 every block is below the modulus: a
      one-byte block is below 256, and a wider block b is below 2**(8*b),
      which minimality keeps at or below `n`. */
  lemma BlocksBelowModulus(t: seq<nat>, n: nat)
    requires IsDigits(t, 256) && n >= 256
    ensures forall i :: 0 <= i < |Text2Ints(t, BlockSize(n))| ==> Text2Ints(t, BlockSize(n))[i] < n
  {
    var b := BlockSize(n);
    BlockSizeLeast(n);
    if b > 1 {
      assert !WideEnough(b - 1, n);
      PowPow(2, 8, b);
    }
  }
}
