/** `hide_message` and `extract_message` of png_steganography.py over the
    decoded pixel buffer. The buffer is the program's `img_data`: one row per
    pixel and one column per channel (3 for RGB, 4 for RGBA). Only the three
    colour channels of each pixel carry payload, `bl` low bits each, in
    pixel order. */
module Stego {
  import opened Arith
  import opened Numerals
  import opened Search
  import opened Wrappers
  import opened Bitstream
  import opened BlockCodec
  import opened Rsa
  import opened Fermat

  /** `(v & ~(2**bl - 1)) | s` for v >= 0 and s < 2**bl: the low `bl` bits
      of `v` replaced by `s`. */
  function SetLow(v: nat, bl: nat, s: nat): nat
  {
    DivMod(v, Pow(2, bl));
    v - v % Pow(2, bl) + s
  }

  /** Masking keeps every bit above the low `bl` ones, the low bits become
      `s`, and a byte stays a byte. */
  lemma SetLowSpec(v: nat, bl: nat, s: nat)
    requires bl <= 8 && s < Pow(2, bl)
    ensures SetLow(v, bl, s) / Pow(2, bl) == v / Pow(2, bl)
    ensures SetLow(v, bl, s) % Pow(2, bl) == s
    ensures v < 256 ==> SetLow(v, bl, s) < 256
  {
    var p := Pow(2, bl);
    var hi := v / p;
    DivMod(v, p);
    DivModUnique(SetLow(v, bl, s), p, hi, s);
    if v < 256 {
      PowAdd(2, bl, 8 - bl);
      assert Pow(2, 8) == 256;
      ByteBound(p, Pow(2, 8 - bl), v, hi, s);
    }
  }

  /** With p*q == 256, replacing the remainder of a byte modulo p by a
      smaller value keeps it below 256. */
  lemma ByteBound(p: int, q: int, v: int, hi: int, s: int)
    requires p > 0 && q > 0 && p * q == 256
    requires 0 <= v < 256 && p * hi <= v && 0 <= s < p
    ensures p * hi + s < 256
  {
    if hi >= q {
      MulLeq(q, hi, p);
    }
    MulLeq(hi + 1, q, p);
  }

  /** `bit_string[index:index+bl]`, Python slicing clamped at the end. */
  function Group(bits: seq<nat>, start: nat, bl: nat): seq<nat>
    requires start <= |bits|
  {
    bits[start..Min(start + bl, |bits|)]
  }

  /** What the embedding loop leaves in colour channel number `k` (counted
      across pixels): the next group of bits when some are left, else the
      old value. */
  function EmbedChannel(v: nat, k: nat, bits: seq<nat>, bl: nat): nat
  {
    if k * bl < |bits| then SetLow(v, bl, Value(Group(bits, k * bl, bl), 2)) else v
  }

  function EmbedChannels(ch: seq<nat>, bits: seq<nat>, bl: nat): seq<nat>
  {
    seq(|ch|, k requires 0 <= k < |ch| => EmbedChannel(ch[k], k, bits, bl))
  }

  /** `format(v, '08b')[8-bl:8]`: the bits `extract_message` reads from one
      channel. */
  function ChannelLowBits(v: nat, bl: nat): seq<nat>
    requires bl <= 8
  {
    WidthLength(v, 8);
    Width(v, 8)[8 - bl..8]
  }

  /** The bits read from a run of channels, in order. */
  function LowBits(ch: seq<nat>, bl: nat): seq<nat>
    requires bl <= 8
  {
    if ch == [] then [] else LowBits(ch[..|ch| - 1], bl) + ChannelLowBits(ch[|ch| - 1], bl)
  }

  /** The colour channels of the first `rows` pixels, alpha left out. */
  function Colours(img: array2<nat>, rows: nat): seq<nat>
    requires img.Length1 >= 3 && rows <= img.Length0
    reads img
  {
    if rows == 0 then []
    else Colours(img, rows - 1) + [img[rows - 1, 0], img[rows - 1, 1], img[rows - 1, 2]]
  }

  /** The list of integers `extract_message` passes to `decrypt`, given the
      scanned channels: the low bits up to the first sentinel, cut into
      32-bit numerals. */
  function ExtractedCipher(ch: seq<nat>, bl: nat): seq<nat>
    requires bl <= 8
  {
    SentinelFacts();
    Chunks(SplitHead(LowBits(ch, bl), Sentinel()), 32, 2)
  }

  /** `avai_bits` for an image whose `img_data` holds `size` numbers in
      rows of `channels`. */
  function Capacity(size: nat, channels: nat, bl: nat): nat
  {
    if channels == 4 then (size * bl) / 4 * 3 else size * bl
  }

  /** Both branches of the capacity formula count `bl` bits in each of the
      three colour channels of every pixel. */
  lemma CapacityIsColourBits(rows: nat, channels: nat, bl: nat)
    requires channels == 3 || channels == 4
    ensures Capacity(rows * channels, channels, bl) == 3 * rows * bl
  {
    if channels == 4 {
      assert rows * channels * bl == 4 * (rows * bl);
      DivModUnique(4 * (rows * bl), 4, rows * bl, 0);
    }
  }

  /** Every `LowBits` run holds `bl` bits per channel. */
  lemma {:induction false} LowBitsLength(ch: seq<nat>, bl: nat)
    requires bl <= 8
    ensures |LowBits(ch, bl)| == |ch| * bl
  {
    if ch != [] {
      LowBitsLength(ch[..|ch| - 1], bl);
      assert |ch| * bl == (|ch| - 1) * bl + bl;
    }
  }

  /** Bit `t` of channel `k` sits at position k*bl + t of the run. */
  lemma {:induction false} LowBitsAt(ch: seq<nat>, bl: nat, k: nat, t: nat)
    requires bl <= 8 && k < |ch| && t < bl
    ensures k * bl + t < |LowBits(ch, bl)|
    ensures LowBits(ch, bl)[k * bl + t] == ChannelLowBits(ch[k], bl)[t]
  {
    var pre := ch[..|ch| - 1];
    LowBitsLength(ch, bl);
    LowBitsLength(pre, bl);
    assert |pre| * bl + bl == |ch| * bl;
    if k < |pre| {
      LowBitsAt(pre, bl, k, t);
      assert pre[k] == ch[k];
    } else {
      assert k * bl == |pre| * bl;
    }
  }

  /** Reading back a channel that was given the group `g` yields `g`,
      zero-filled on the left to `bl` bits when the group was short. */
  lemma ChannelEmbedBits(v: nat, bl: nat, g: seq<nat>)
    requires 1 <= bl <= 8 && v < 256 && IsDigits(g, 2) && |g| <= bl
    ensures ChannelLowBits(SetLow(v, bl, Value(g, 2)), bl) == ZFill(g, bl)
  {
    var s := Value(g, 2);
    ValueBound(g, 2);
    PowMonotone(2, |g|, bl);
    SetLowSpec(v, bl, s);
    ByteLowBits(SetLow(v, bl, s), bl);
    ZFillDigits(g, bl);
  }

  /** The `bl` bits read from a byte are its value modulo 2**bl. */
  lemma ByteLowBits(x: nat, bl: nat)
    requires 1 <= bl <= 8 && x < 256
    ensures ChannelLowBits(x, bl) == ToDigits(x % Pow(2, bl), 2, bl)
  {
    assert Pow(2, 8) == 256;
    WidthIsToDigits(x, 8);
    ToDigitsSuffix(x, 2, 8, bl);
    ToDigitsMod(x, 2, bl);
  }

  /** `s.zfill(bl)` of a short binary string is the `bl`-digit numeral of
      its value. */
  lemma ZFillDigits(g: seq<nat>, bl: nat)
    requires IsDigits(g, 2) && |g| <= bl
    ensures ToDigits(Value(g, 2), 2, bl) == ZFill(g, bl)
  {
    var z := ZFill(g, bl);
    if |g| < bl {
      ValueLeadingZeros(bl - |g|, g, 2);
    }
    assert |z| == bl && IsDigits(z, 2) && Value(z, 2) == Value(g, 2);
    ToDigitsOfValue(z, 2);
  }

  /** The bits that fall into a short final group are all zero. */
  predicate TailZero(bits: seq<nat>, bl: nat)
    requires bl > 0
  {
    forall j :: |bits| - |bits| % bl <= j < |bits| ==> bits[j] == 0
  }

  /** The payload satisfies `TailZero` for every supported bit length:
      its length is a multiple of 4 and it ends in two zero bits. */
  lemma PayloadTailZero(cipher: seq<nat>, bl: nat)
    requires 1 <= bl <= 4 && Fits32(cipher)
    ensures TailZero(BitString(cipher), bl)
  {
    var bits := BitString(cipher);
    var len := |bits|;
    BitStringLength(cipher);
    if bl == 4 {
      DivModUnique(len, 4, 8 * |cipher| + 10, 0);
    } else {
      DivMod(len, bl);
    }
    assert len % bl <= 2;
    forall j | len - len % bl <= j < len
      ensures bits[j] == 0
    {
      assert j == len - 1 || j == len - 2;
    }
  }

  /** Bit `t` of channel `k` is read back as payload bit k*bl + t. */
  lemma EmbeddedBit(ch: seq<nat>, bits: seq<nat>, bl: nat, k: nat, t: nat)
    requires 1 <= bl <= 8 && k < |ch| && ch[k] < 256
    requires IsDigits(bits, 2) && TailZero(bits, bl)
    requires t < bl && k * bl + t < |bits|
    ensures k * bl + t < |LowBits(EmbedChannels(ch, bits, bl), bl)|
    ensures LowBits(EmbedChannels(ch, bits, bl), bl)[k * bl + t] == bits[k * bl + t]
  {
    var emb := EmbedChannels(ch, bits, bl);
    var g := Group(bits, k * bl, bl);
    LowBitsAt(emb, bl, k, t);
    assert emb[k] == SetLow(ch[k], bl, Value(g, 2));
    GroupDigits(bits, k * bl, bl);
    ChannelEmbedBits(ch[k], bl, g);
    GroupBit(bits, k, bl, t);
  }

  /** A group is a binary string of at most `bl` bits. */
  lemma GroupDigits(bits: seq<nat>, start: nat, bl: nat)
    requires IsDigits(bits, 2) && start <= |bits|
    ensures IsDigits(Group(bits, start, bl), 2) && |Group(bits, start, bl)| <= bl
  {
    var g := Group(bits, start, bl);
    assert forall j :: 0 <= j < |g| ==> g[j] == bits[start + j];
  }

  /** Bit `t` of group `k`, zero-filled to `bl` bits, is bit k*bl + t of
      the payload: a short final group holds only zero bits. */
  lemma GroupBit(bits: seq<nat>, k: nat, bl: nat, t: nat)
    requires bl >= 1 && t < bl && k * bl + t < |bits| && TailZero(bits, bl)
    ensures |ZFill(Group(bits, k * bl, bl), bl)| == bl
    ensures ZFill(Group(bits, k * bl, bl), bl)[t] == bits[k * bl + t]
  {
    var start := k * bl;
    var g := Group(bits, start, bl);
    if |g| < bl {
      var len := |bits|;
      DivModUnique(len, bl, k, len - start);
      assert bits[start + t] == 0;
      assert ZFill(g, bl) == Zeros(bl - |g|) + g;
      if t >= bl - |g| {
        assert ZFill(g, bl)[t] == g[t - (bl - |g|)] == bits[start + t - (bl - |g|)];
      }
    }
  }

  /** Embedding a payload that fits and reading the channels back yields
      the payload followed by at most a few zero bits. */
  lemma EmbeddedPrefix(ch: seq<nat>, bits: seq<nat>, bl: nat)
    requires 1 <= bl <= 8 && forall k :: 0 <= k < |ch| ==> ch[k] < 256
    requires IsDigits(bits, 2) && |bits| <= |ch| * bl && TailZero(bits, bl)
    ensures |LowBits(EmbedChannels(ch, bits, bl), bl)| == |ch| * bl
    ensures LowBits(EmbedChannels(ch, bits, bl), bl)[..|bits|] == bits
  {
    var low := LowBits(EmbedChannels(ch, bits, bl), bl);
    LowBitsLength(EmbedChannels(ch, bits, bl), bl);
    forall i | 0 <= i < |bits|
      ensures low[i] == bits[i]
    {
      BlockOf(i, bl, |ch|);
      EmbeddedBit(ch, bits, bl, i / bl, i % bl);
    }
  }

  /** The round trip of the two operations: embedding the payload of a
      ciphertext into channels with room for it, then extracting, gives the
      ciphertext back, provided every value fits in 32 bits and the
      ciphertext bits do not already contain the sentinel. */
  lemma EmbedExtractRoundTrip(ch: seq<nat>, cipher: seq<nat>, bl: nat)
    requires 1 <= bl <= 4 && forall k :: 0 <= k < |ch| ==> ch[k] < 256
    requires Fits32(cipher) && NoEarlySentinel(cipher)
    requires |BitString(cipher)| <= |ch| * bl
    ensures ExtractedCipher(EmbedChannels(ch, BitString(cipher), bl), bl) == cipher
  {
    var bits := BitString(cipher);
    BitStringLength(cipher);
    PayloadTailZero(cipher, bl);
    EmbeddedPrefix(ch, bits, bl);
    SplitAtAppendedSentinel(LowBits(EmbedChannels(ch, bits, bl), bl), cipher);
    ChunksSerialise(cipher);
  }

  /** Any bit run that starts with the payload splits at the appended
      sentinel, leaving exactly the serialised ciphertext. */
  lemma SplitAtAppendedSentinel(low: seq<nat>, cipher: seq<nat>)
    requires NoEarlySentinel(cipher)
    requires |BitString(cipher)| <= |low| && low[..|BitString(cipher)|] == BitString(cipher)
    ensures |Sentinel()| > 0 && SplitHead(low, Sentinel()) == Serialise(cipher)
  {
    var bits := BitString(cipher);
    var ser := Serialise(cipher);
    SentinelFacts();
    SentinelAtEnd(cipher);
    SliceOfPrefix(low, bits, |ser|, |ser| + 40);
    forall q: nat | q < |ser|
      ensures !OccursAt(low, Sentinel(), q)
    {
      assert !OccursAt(bits, Sentinel(), q);
      SliceOfPrefix(low, bits, q, q + 40);
    }
    SplitHeadAtFirst(low, Sentinel(), |ser|);
    SliceOfPrefix(low, bits, 0, |ser|);
    assert low[..|ser|] == low[0..|ser|];
    assert bits[..|ser|] == bits[0..|ser|] == ser;
  }

  /** A slice inside a prefix of `low` equal to `bits` is the same slice
      of `bits`. */
  lemma SliceOfPrefix(low: seq<nat>, bits: seq<nat>, a: nat, b: nat)
    requires |bits| <= |low| && low[..|bits|] == bits && a <= b <= |bits|
    ensures low[a..b] == bits[a..b]
  {
    forall k | a <= k < b
      ensures low[k] == bits[k]
    {
      assert low[..|bits|][k] == low[k];
    }
  }

  /** Scanning only three pixels reads 9*bl <= 36 bits, fewer than the
      40-bit sentinel, so the sentinel is never found and the list handed
      to `decrypt` has one or two entries whatever was hidden. */
  lemma ShortScanLength(ch: seq<nat>, bl: nat)
    requires |ch| == 9 && 1 <= bl <= 4
    ensures 1 <= |ExtractedCipher(ch, bl)| <= 2
  {
    var low := LowBits(ch, bl);
    LowBitsLength(ch, bl);
    SentinelFacts();
    SplitHeadNone(low, Sentinel());
    ChunksLength(low, 32, 2);
  }

  /** An RGB image with a hidden empty message (ciphertext `[]`) or with a
      ciphertext of three or more blocks does not give it back when only
      three pixels are scanned. */
  lemma ShortScanLosesPayload(ch: seq<nat>, bl: nat, cipher: seq<nat>)
    requires |ch| == 9 && 1 <= bl <= 4
    requires |cipher| == 0 || |cipher| >= 3
    ensures ExtractedCipher(ch, bl) != cipher
  {
    ShortScanLength(ch, bl);
  }

  /** The empty message encrypts to the empty list. */
  lemma EncryptEmpty(pub: PublicKey)
    requires pub.n > 0
    ensures Encrypt(pub, []) == []
  {
    ChunksLength(Padded([], BlockSize(pub.n)), BlockSize(pub.n), 256);
  }

  datatype HideOutcome = Hidden | TooLarge(overflow: nat)

  /** The embedding loop of `hide_message`: walk the pixels, write the next
      `bl` payload bits into each colour channel while bits remain, and stop
      at the first pixel reached with nothing left to write. */
  method EmbedBits(img: array2<nat>, bits: seq<nat>, bl: nat)
    modifies img
    requires img.Length1 == 3 || img.Length1 == 4
    requires 1 <= bl <= 4
    requires |bits| <= 3 * img.Length0 * bl
    ensures Colours(img, img.Length0) == EmbedChannels(old(Colours(img, img.Length0)), bits, bl)
    ensures forall i, j :: 0 <= i < img.Length0 && 3 <= j < img.Length1 ==> img[i, j] == old(img[i, j])
  {
    var rows := img.Length0;
    var size := rows * img.Length1;
    var needed := |bits|;
    ghost var before := Colours(img, rows);
    ColoursIndex(img, rows);
    var index := 0;
    var i := 0;
    while i < size
      invariant 0 <= i <= rows
      invariant index <= 3 * i * bl
      invariant index < needed ==> index == 3 * i * bl
      invariant forall ii, jj :: 0 <= ii < rows && 0 <= jj < 3 ==>
        img[ii, jj] == Staged(before, 3 * ii + jj, 3 * i, bits, bl)
      invariant forall ii, jj :: 0 <= ii < rows && 3 <= jj < img.Length1 ==> img[ii, jj] == old(img[ii, jj])
    {
      if index >= needed {
        break;
      }
      if i >= rows {
        assert false;
      }
      index := EmbedPixel(img, i, bits, bl, index, before);
      i := i + 1;
    }
    ColoursEmbedded(img, before, 3 * i, bits, bl);
  }

  /** The value of channel `k` once the loop of `hide_message` has passed
      the first `done` channels of `before`. */
  function Staged(before: seq<nat>, k: nat, done: nat, bits: seq<nat>, bl: nat): nat
    requires k < |before|
  {
    if k < done then EmbedChannel(before[k], k, bits, bl) else before[k]
  }

  /** Passing channel `c` writes the next group into it, if one is left,
      and changes no other channel. */
  lemma StagedStep(before: seq<nat>, c: nat, bits: seq<nat>, bl: nat, index: nat)
    requires c < |before| && index <= c * bl && (index < |bits| ==> index == c * bl)
    ensures Staged(before, c, c + 1, bits, bl) ==
      if index < |bits| then SetLow(before[c], bl, Value(Group(bits, index, bl), 2)) else before[c]
    ensures forall k :: 0 <= k < |before| && k != c ==>
      Staged(before, k, c + 1, bits, bl) == Staged(before, k, c, bits, bl)
  {
  }

  /** Channels from number `c0` on, once the payload is used up, keep their
      values. */
  lemma PastPayload(c0: nat, bits: seq<nat>, bl: nat)
    requires |bits| <= c0 * bl
    ensures forall v, c :: c0 <= c ==> EmbedChannel(v, c, bits, bl) == v
  {
    forall v, c | c0 <= c
      ensures EmbedChannel(v, c, bits, bl) == v
    {
      MulLeq(c0, c, bl);
    }
  }

  /** One pass of the inner loop of `hide_message` over the colour channels
      of pixel `i`: entered with the channels before pixel `i` written, it
      leaves them written up to and including pixel `i`. */
  method EmbedPixel(img: array2<nat>, i: nat, bits: seq<nat>, bl: nat, index0: nat, ghost before: seq<nat>)
    returns (index: nat)
    modifies img
    requires img.Length1 == 3 || img.Length1 == 4
    requires 1 <= bl <= 4 && i < img.Length0 && |before| == 3 * img.Length0
    requires index0 == 3 * i * bl && index0 < |bits|
    requires forall ii, jj :: 0 <= ii < img.Length0 && 0 <= jj < 3 ==>
      img[ii, jj] == Staged(before, 3 * ii + jj, 3 * i, bits, bl)
    ensures index <= 3 * (i + 1) * bl
    ensures index < |bits| ==> index == 3 * (i + 1) * bl
    ensures forall ii, jj :: 0 <= ii < img.Length0 && 0 <= jj < 3 ==>
      img[ii, jj] == Staged(before, 3 * ii + jj, 3 * (i + 1), bits, bl)
    ensures forall ii, jj :: 0 <= ii < img.Length0 && 3 <= jj < img.Length1 ==> img[ii, jj] == old(img[ii, jj])
  {
    index := index0;
    for j := 0 to 3
      invariant index <= (3 * i + j) * bl
      invariant index < |bits| ==> index == (3 * i + j) * bl
      invariant forall ii, jj :: 0 <= ii < img.Length0 && 0 <= jj < 3 ==>
        img[ii, jj] == Staged(before, 3 * ii + jj, 3 * i + j, bits, bl)
      invariant forall ii, jj :: 0 <= ii < img.Length0 && 3 <= jj < img.Length1 ==> img[ii, jj] == old(img[ii, jj])
    {
      index := EmbedChannelAt(img, i, j, bits, bl, index, before);
    }
    assert 3 * (i + 1) * bl == (3 * i + 3) * bl;
  }

  /** The body of the inner loop of `hide_message`: channel `j` of pixel
      `i`, the channel numbered c = 3*i + j, gets the next `bl` bits if any
      are left. */
  method EmbedChannelAt(img: array2<nat>, i: nat, j: nat, bits: seq<nat>, bl: nat, index0: nat, ghost before: seq<nat>)
    returns (index: nat)
    modifies img
    requires img.Length1 == 3 || img.Length1 == 4
    requires 1 <= bl <= 4 && i < img.Length0 && j < 3 && |before| == 3 * img.Length0
    requires index0 <= (3 * i + j) * bl && (index0 < |bits| ==> index0 == (3 * i + j) * bl)
    requires forall ii, jj :: 0 <= ii < img.Length0 && 0 <= jj < 3 ==>
      img[ii, jj] == Staged(before, 3 * ii + jj, 3 * i + j, bits, bl)
    ensures index <= (3 * i + j + 1) * bl && (index < |bits| ==> index == (3 * i + j + 1) * bl)
    ensures forall ii, jj :: 0 <= ii < img.Length0 && 0 <= jj < 3 ==>
      img[ii, jj] == Staged(before, 3 * ii + jj, 3 * i + j + 1, bits, bl)
    ensures forall ii, jj :: 0 <= ii < img.Length0 && 3 <= jj < img.Length1 ==> img[ii, jj] == old(img[ii, jj])
  {
    var c := 3 * i + j;
    assert (c + 1) * bl == c * bl + bl;
    assert img[i, j] == before[c];
    StagedStep(before, c, bits, bl, index0);
    index := index0;
    if index < |bits| {
      img[i, j] := SetLow(img[i, j], bl, Value(Group(bits, index, bl), 2));
      index := index + bl;
    }
    forall ii, jj | 0 <= ii < img.Length0 && 0 <= jj < 3
      ensures img[ii, jj] == Staged(before, 3 * ii + jj, c + 1, bits, bl)
    {
      if ii != i || jj != j {
        assert 3 * ii + jj != c;
        assert img[ii, jj] == old(img[ii, jj]) == Staged(before, 3 * ii + jj, c, bits, bl);
      }
    }
  }

  /** The three nested reading loops of `extract_message` over the first
      `scan` pixels. */
  method ReadLowBits(img: array2<nat>, scan: nat, bl: nat) returns (bits: seq<nat>)
    requires img.Length1 >= 3 && scan <= img.Length0 && 1 <= bl <= 8
    ensures bits == LowBits(Colours(img, scan), bl)
  {
    bits := [];
    for i := 0 to scan
      invariant bits == LowBits(Colours(img, i), bl)
    {
      var row := [img[i, 0], img[i, 1], img[i, 2]];
      var low := ReadPixel(row, bl);
      LowBitsAppend(Colours(img, i), row, bl);
      bits := bits + low;
    }
  }

  /** The middle reading loop: the colour channels of one pixel in order. */
  method ReadPixel(row: seq<nat>, bl: nat) returns (bits: seq<nat>)
    requires |row| == 3 && 1 <= bl <= 8
    ensures bits == LowBits(row, bl)
  {
    bits := [];
    for j := 0 to 3
      invariant bits == LowBits(row[..j], bl)
    {
      var low := ReadChannel(row[j], bl);
      LowBitsSnoc(row[..j], row[j], bl);
      assert row[..j + 1] == row[..j] + [row[j]];
      bits := bits + low;
    }
    assert row[..3] == row;
  }

  /** The innermost reading loop: the characters `8 - bl` to 7 of
      `format(v, '08b')`, one at a time. */
  method ReadChannel(v: nat, bl: nat) returns (bits: seq<nat>)
    requires 1 <= bl <= 8
    ensures bits == ChannelLowBits(v, bl)
  {
    WidthLength(v, 8);
    var numeral := Width(v, 8);
    bits := [];
    for k := 8 - bl to 8
      invariant bits == numeral[8 - bl..k]
    {
      assert numeral[8 - bl..k + 1] == numeral[8 - bl..k] + [numeral[k]];
      bits := bits + [numeral[k]];
    }
  }

  /** Reading two runs of channels one after the other. */
  lemma {:induction false} LowBitsAppend(a: seq<nat>, b: seq<nat>, bl: nat)
    requires bl <= 8
    ensures LowBits(a + b, bl) == LowBits(a, bl) + LowBits(b, bl)
  {
    if b == [] {
      assert a + b == a;
    } else {
      var pre, last := b[..|b| - 1], b[|b| - 1];
      assert b == pre + [last];
      assert a + b == (a + pre) + [last];
      LowBitsSnoc(a + pre, last, bl);
      LowBitsSnoc(pre, last, bl);
      LowBitsAppend(a, pre, bl);
      AppendAssoc(LowBits(a, bl), LowBits(pre, bl), ChannelLowBits(last, bl));
    }
  }

  lemma AppendAssoc(x: seq<nat>, y: seq<nat>, z: seq<nat>)
    ensures (x + y) + z == x + (y + z)
  {}

  /** Reading one more channel appends its low bits. */
  lemma LowBitsSnoc(ch: seq<nat>, v: nat, bl: nat)
    requires bl <= 8
    ensures LowBits(ch + [v], bl) == LowBits(ch, bl) + ChannelLowBits(v, bl)
  {
    assert (ch + [v])[..|ch|] == ch;
  }

  /** `extract_message` up to the call to `decrypt`, with the scan bound as
      the program writes it: all pixels of an RGBA image (`img_data.size // 4`)
      but only three pixels of an RGB one. Scanning past the last pixel
      raises an IndexError, here `None`. */
  method ExtractCipherAsWritten(img: array2<nat>, bl: nat) returns (r: Option<seq<nat>>)
    requires img.Length1 == 3 || img.Length1 == 4
    requires 1 <= bl <= 4
    ensures img.Length1 == 4 ==> r == Some(ExtractedCipher(Colours(img, img.Length0), bl))
    ensures img.Length1 == 3 && img.Length0 < 3 ==> r.None?
    ensures img.Length1 == 3 && img.Length0 >= 3 ==> r == Some(ExtractedCipher(Colours(img, 3), bl))
  {
    var size := img.Length0 * img.Length1;
    var scan := if img.Length1 == 4 then size / 4 else 3;
    if img.Length1 == 4 {
      DivModUnique(size, 4, img.Length0, 0);
    }
    if scan > img.Length0 {
      return None;
    }
    var bits := ReadLowBits(img, scan, bl);
    SentinelFacts();
    var payload := SplitHead(bits, Sentinel());
    r := Some(Chunks(payload, 32, 2));
  }

  /** `extract_message` up to the call to `decrypt`, scanning every pixel
      in both modes. */
  method ExtractCipher(img: array2<nat>, bl: nat) returns (cipher: seq<nat>)
    requires img.Length1 == 3 || img.Length1 == 4
    requires 1 <= bl <= 4
    ensures cipher == ExtractedCipher(Colours(img, img.Length0), bl)
  {
    var bits := ReadLowBits(img, img.Length0, bl);
    SentinelFacts();
    var payload := SplitHead(bits, Sentinel());
    cipher := Chunks(payload, 32, 2);
  }

  /** `extract_message` as the program writes it: the integers read with
      the scan bound of `ExtractCipherAsWritten`, decrypted with the secret
      key; `None` is the IndexError of an RGB image under three pixels. */
  method ExtractMessageAsWritten(img: array2<nat>, sec: PrivateKey, bl: nat)
    returns (r: Option<Result<seq<nat>, DecodeError>>)
    requires img.Length1 == 3 || img.Length1 == 4
    requires 1 <= bl <= 4 && sec.n > 0
    ensures img.Length1 == 4 ==> r == Some(Decrypt(sec, ExtractedCipher(Colours(img, img.Length0), bl)))
    ensures img.Length1 == 3 && img.Length0 < 3 ==> r.None?
    ensures img.Length1 == 3 && img.Length0 >= 3 ==> r == Some(Decrypt(sec, ExtractedCipher(Colours(img, 3), bl)))
  {
    var cipher := ExtractCipherAsWritten(img, bl);
    match cipher
    case None =>
      r := None;
    case Some(ints) =>
      r := Some(Decrypt(sec, ints));
  }

  /** `extract_message` with the corrected scan bound: the integers read
      from every pixel, decrypted with the secret key. */
  method ExtractMessage(img: array2<nat>, sec: PrivateKey, bl: nat) returns (r: Result<seq<nat>, DecodeError>)
    requires img.Length1 == 3 || img.Length1 == 4
    requires 1 <= bl <= 4 && sec.n > 0
    ensures r == Decrypt(sec, ExtractedCipher(Colours(img, img.Length0), bl))
  {
    var cipher := ExtractCipher(img, bl);
    r := Decrypt(sec, cipher);
  }

  /** `hide_message` on the decoded pixels: encrypt, build the payload,
      refuse it when it needs more bits than the image offers (reporting the
      overflow), otherwise embed it. */
  method HideMessage(text: seq<nat>, pub: PublicKey, img: array2<nat>, bl: nat) returns (r: HideOutcome)
    modifies img
    requires img.Length1 == 3 || img.Length1 == 4
    requires 1 <= bl <= 4 && pub.n > 0
    ensures var needed := |BitString(Encrypt(pub, text))|;
      && (r.TooLarge? <==> needed > 3 * img.Length0 * bl)
      && (r.TooLarge? ==> r.overflow == needed - 3 * img.Length0 * bl)
    ensures r.TooLarge? ==> forall i, j :: 0 <= i < img.Length0 && 0 <= j < img.Length1 ==> img[i, j] == old(img[i, j])
    ensures r.Hidden? ==> Colours(img, img.Length0) == EmbedChannels(old(Colours(img, img.Length0)), BitString(Encrypt(pub, text)), bl)
    ensures r.Hidden? ==> forall i, j :: 0 <= i < img.Length0 && 3 <= j < img.Length1 ==> img[i, j] == old(img[i, j])
  {
    var cipher := Encrypt(pub, text);
    var bits := BitString(cipher);
    var needed := |bits|;
    var size := img.Length0 * img.Length1;
    var avail := Capacity(size, img.Length1, bl);
    CapacityIsColourBits(img.Length0, img.Length1, bl);
    if needed > avail {
      return TooLarge(needed - avail);
    }
    EmbedBits(img, bits, bl);
    r := Hidden;
  }

  /** When every colour channel of the image is the embedding of the
      matching entry of `before`, so is the colour sequence as a whole. */
  lemma ColoursEmbedded(img: array2<nat>, before: seq<nat>, done: nat, bits: seq<nat>, bl: nat)
    requires img.Length1 >= 3 && |before| == 3 * img.Length0
    requires done >= |before| || |bits| <= done * bl
    requires forall i, j :: 0 <= i < img.Length0 && 0 <= j < 3 ==>
      img[i, j] == Staged(before, 3 * i + j, done, bits, bl)
    ensures Colours(img, img.Length0) == EmbedChannels(before, bits, bl)
  {
    var after := Colours(img, img.Length0);
    ColoursIndex(img, img.Length0);
    if done < |before| {
      PastPayload(done, bits, bl);
    }
    forall k | 0 <= k < |before|
      ensures after[k] == EmbedChannel(before[k], k, bits, bl)
    {
      var i, j := k / 3, k % 3;
      assert k == 3 * i + j;
      assert after[3 * i + j] == img[i, j];
      assert img[i, j] == Staged(before, 3 * i + j, done, bits, bl);
    }
  }

  /** Channel number 3*i + j of the colour sequence is `img[i, j]`. */
  lemma {:induction false} ColoursIndex(img: array2<nat>, rows: nat)
    requires img.Length1 >= 3 && rows <= img.Length0
    ensures |Colours(img, rows)| == 3 * rows
    ensures forall i, j :: 0 <= i < rows && 0 <= j < 3 ==> Colours(img, rows)[3 * i + j] == img[i, j]
  {
    if rows > 0 {
      ColoursIndex(img, rows - 1);
    }
  }

  /** Hiding a message under keys that `generate_keypair` made from two
      distinct primes, then extracting and decrypting with the secret key,
      gives the message back: always with the corrected all-pixel scan, and
      for an RGBA image also with the scan as the program writes it. The
      image holds channel values 0..255, the modulus lies in [256, 2**32]
      and the ciphertext bits do not spell the sentinel. */
  method HideThenReveal(text: seq<nat>, p: nat, q: nat, keys: KeyPair, img: array2<nat>, bl: nat)
    returns (outcome: HideOutcome, message: Result<seq<nat>, DecodeError>,
             messageAsWritten: Option<Result<seq<nat>, DecodeError>>)
    modifies img
    requires img.Length1 == 3 || img.Length1 == 4
    requires 1 <= bl <= 4
    requires IsPrime(p) && IsPrime(q) && p != q && KeysFrom(p, q, keys)
    requires 256 <= keys.pub.n <= 0x1_0000_0000
    requires IsDigits(text, 256) && forall i :: 0 <= i < |text| ==> text[i] != 0
    requires forall i, j :: 0 <= i < img.Length0 && 0 <= j < img.Length1 ==> img[i, j] < 256
    requires NoEarlySentinel(Encrypt(keys.pub, text))
    ensures outcome.Hidden? <==> |BitString(Encrypt(keys.pub, text))| <= 3 * img.Length0 * bl
    ensures outcome.Hidden? ==> message == Success(text)
    ensures outcome.Hidden? && img.Length1 == 4 ==> messageAsWritten == Some(Success(text))
  {
    ghost var before := Colours(img, img.Length0);
    ColoursBytes(img, img.Length0);
    ColoursIndex(img, img.Length0);
    outcome := HideMessage(text, keys.pub, img, bl);
    message := ExtractMessage(img, keys.sec, bl);
    messageAsWritten := ExtractMessageAsWritten(img, keys.sec, bl);
    if outcome.Hidden? {
      PowTwo32();
      EmbedExtractRoundTrip(before, Encrypt(keys.pub, text), bl);
      KeyPairRoundTrip(p, q, keys, text);
    }
  }

  /** The colour channels of an image of bytes are bytes. */
  lemma ColoursBytes(img: array2<nat>, rows: nat)
    requires img.Length1 >= 3 && rows <= img.Length0
    requires forall i, j :: 0 <= i < img.Length0 && 0 <= j < img.Length1 ==> img[i, j] < 256
    ensures forall k :: 0 <= k < |Colours(img, rows)| ==> Colours(img, rows)[k] < 256
  {
    ColoursIndex(img, rows);
    forall k | 0 <= k < |Colours(img, rows)|
      ensures Colours(img, rows)[k] < 256
    {
      var i, j := k / 3, k % 3;
      assert k == 3 * i + j;
    }
  }
}
