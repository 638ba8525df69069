/** The bit string `hide_message` writes into an image: every ciphertext
    integer as a 32-character binary numeral (`bin(num)[2:].zfill(32)`),
    then the end-of-text sentinel "$EOT$" as five 8-bit character codes.
    Bits are base-2 digit strings. */
module Bitstream {
  import opened Arith
  import opened Numerals
  import opened Search

  const SentinelText: string := "$EOT$"

  /** `"".join(f"{ord(c):08b}" for c in s)`. */
  function CharsToBits(s: string): seq<nat>
  {
    if s == [] then [] else Width(s[0] as nat, 8) + CharsToBits(s[1..])
  }

  /** The 40-bit end-of-text marker. */
  function Sentinel(): seq<nat>
  {
    CharsToBits(SentinelText)
  }

  /** `"".join(bin(num)[2:].zfill(32) for num in cipher)`. */
  function Serialise(cipher: seq<nat>): seq<nat>
  {
    if cipher == [] then [] else Width(cipher[0], 32) + Serialise(cipher[1..])
  }

  /** The whole payload: the serialised ciphertext followed by the sentinel. */
  function BitString(cipher: seq<nat>): seq<nat>
  {
    Serialise(cipher) + Sentinel()
  }

  predicate Fits32(cipher: seq<nat>)
  {
    forall i :: 0 <= i < |cipher| ==> cipher[i] < Pow(2, 32)
  }

  /** The bound of `Fits32` as a number. */
  lemma PowTwo32()
    ensures Pow(2, 32) == 0x1_0000_0000
  {
    assert Pow(2, 1) == 2;
    PowAdd(2, 1, 1);
    PowAdd(2, 2, 2);
    PowAdd(2, 4, 4);
    PowAdd(2, 8, 8);
    PowAdd(2, 16, 16);
  }

  /** The first occurrence of the sentinel in the payload is the one that
      was appended: the ciphertext bits do not contain it, not even across
      the boundary. */
  predicate NoEarlySentinel(cipher: seq<nat>)
  {
    forall p :: 0 <= p < |Serialise(cipher)| ==> !OccursAt(BitString(cipher), Sentinel(), p)
  }

  /** The sentinel spelled out: '$' = 0x24, 'E' = 0x45, 'O' = 0x4F,
      'T' = 0x54, '$' = 0x24. */
  lemma SentinelBits()
    ensures Sentinel() == [0, 0, 1, 0, 0, 1, 0, 0]
                        + ([0, 1, 0, 0, 0, 1, 0, 1]
                        + ([0, 1, 0, 0, 1, 1, 1, 1]
                        + ([0, 1, 0, 1, 0, 1, 0, 0]
                        + [0, 0, 1, 0, 0, 1, 0, 0])))
  {
    SentinelSpelled();
    ByteBits36();
    ByteBits69();
    ByteBits79();
    ByteBits84();
  }

  lemma SentinelSpelled()
    ensures Sentinel() == Width(36, 8) + (Width(69, 8) + (Width(79, 8) + (Width(84, 8) + Width(36, 8))))
  {
    var s := SentinelText;
    FiveChars(s);
    assert s[0] as nat == 36 && s[1] as nat == 69 && s[2] as nat == 79;
    assert s[3] as nat == 84 && s[4] as nat == 36;
  }

  /** A five-character string becomes the 8-bit numerals of its five
      character codes. */
  lemma FiveChars(s: string)
    requires |s| == 5
    ensures CharsToBits(s) == Width(s[0] as nat, 8) + (Width(s[1] as nat, 8)
      + (Width(s[2] as nat, 8) + (Width(s[3] as nat, 8) + Width(s[4] as nat, 8))))
  {
    assert CharsToBits(s[4..]) == Width(s[4] as nat, 8) + CharsToBits([]);
    assert CharsToBits(s[3..]) == Width(s[3] as nat, 8) + CharsToBits(s[4..]);
    assert CharsToBits(s[2..]) == Width(s[2] as nat, 8) + CharsToBits(s[3..]);
    assert CharsToBits(s[1..]) == Width(s[1] as nat, 8) + CharsToBits(s[2..]);
  }

  lemma ByteBits36()
    ensures Width(36, 8) == [0, 0, 1, 0, 0, 1, 0, 0]
  {
    assert Bin(2) == [1, 0];
    assert Bin(4) == [1, 0, 0];
    assert Bin(9) == [1, 0, 0, 1];
    assert Bin(18) == [1, 0, 0, 1, 0];
    assert Bin(36) == [1, 0, 0, 1, 0, 0];
    assert Zeros(2) == [0, 0];
  }

  lemma ByteBits69()
    ensures Width(69, 8) == [0, 1, 0, 0, 0, 1, 0, 1]
  {
    assert Bin(2) == [1, 0];
    assert Bin(4) == [1, 0, 0];
    assert Bin(8) == [1, 0, 0, 0];
    assert Bin(17) == [1, 0, 0, 0, 1];
    assert Bin(34) == [1, 0, 0, 0, 1, 0];
    assert Bin(69) == [1, 0, 0, 0, 1, 0, 1];
    assert Zeros(1) == [0];
  }

  lemma ByteBits79()
    ensures Width(79, 8) == [0, 1, 0, 0, 1, 1, 1, 1]
  {
    assert Bin(2) == [1, 0];
    assert Bin(4) == [1, 0, 0];
    assert Bin(9) == [1, 0, 0, 1];
    assert Bin(19) == [1, 0, 0, 1, 1];
    assert Bin(39) == [1, 0, 0, 1, 1, 1];
    assert Bin(79) == [1, 0, 0, 1, 1, 1, 1];
    assert Zeros(1) == [0];
  }

  lemma ByteBits84()
    ensures Width(84, 8) == [0, 1, 0, 1, 0, 1, 0, 0]
  {
    assert Bin(2) == [1, 0];
    assert Bin(5) == [1, 0, 1];
    assert Bin(10) == [1, 0, 1, 0];
    assert Bin(21) == [1, 0, 1, 0, 1];
    assert Bin(42) == [1, 0, 1, 0, 1, 0];
    assert Bin(84) == [1, 0, 1, 0, 1, 0, 0];
    assert Zeros(1) == [0];
  }

  /** The sentinel is 40 bits of digits ending in two zero bits. */
  lemma SentinelFacts()
    ensures |Sentinel()| == 40 && IsDigits(Sentinel(), 2)
    ensures Sentinel()[38] == 0 && Sentinel()[39] == 0
  {
    SentinelSpelled();
    ByteBits36();
    ByteDigits(36);
    ByteDigits(69);
    ByteDigits(79);
    ByteDigits(84);
    FiveBytes(Width(36, 8), Width(69, 8), Width(79, 8), Width(84, 8), Width(36, 8));
  }

  /** Five 8-bit numerals in a row make 40 binary digits, the last two
      those of the fifth. */
  lemma FiveBytes(a: seq<nat>, b: seq<nat>, c: seq<nat>, d: seq<nat>, e: seq<nat>)
    requires |a| == 8 && |b| == 8 && |c| == 8 && |d| == 8 && |e| == 8
    requires IsDigits(a, 2) && IsDigits(b, 2) && IsDigits(c, 2) && IsDigits(d, 2) && IsDigits(e, 2)
    ensures var s := a + (b + (c + (d + e)));
      |s| == 40 && IsDigits(s, 2) && s[38] == e[6] && s[39] == e[7]
  {
    var r3 := d + e;
    var r2 := c + r3;
    var r1 := b + r2;
    DigitsAppend(d, e, 2);
    DigitsAppend(c, r3, 2);
    DigitsAppend(b, r2, 2);
    DigitsAppend(a, r1, 2);
    assert r3[14] == e[6] && r3[15] == e[7];
    assert r2[22] == e[6] && r2[23] == e[7];
    assert r1[30] == e[6] && r1[31] == e[7];
  }

  /** The 8-bit numeral of a byte: eight binary digits. */
  lemma ByteDigits(x: nat)
    requires x < 256
    ensures |Width(x, 8)| == 8 && IsDigits(Width(x, 8), 2)
  {
    assert Pow(2, 8) == 256;
    WidthLength(x, 8);
    WidthDigits(x, 8);
  }

  /** A zero-filled binary numeral is a digit string. */
  lemma WidthDigits(x: nat, w: nat)
    ensures IsDigits(Width(x, w), 2)
  {
    BinValue(x);
  }

  /** Values below 2**32 serialise to exactly 32 bits each. */
  lemma {:induction false} SerialiseLength(cipher: seq<nat>)
    requires Fits32(cipher)
    ensures |Serialise(cipher)| == 32 * |cipher| && IsDigits(Serialise(cipher), 2)
  {
    if cipher != [] {
      WidthLength(cipher[0], 32);
      WidthDigits(cipher[0], 32);
      SerialiseLength(cipher[1..]);
    }
  }

  /** `[int(s[i:i+32], 2) for i in range(0, len(s), 32)]` reads the
      serialised ciphertext back exactly, when every value fits in 32 bits. */
  lemma {:induction false} ChunksSerialise(cipher: seq<nat>)
    requires Fits32(cipher)
    ensures Chunks(Serialise(cipher), 32, 2) == cipher
  {
    if cipher != [] {
      var x, tail := cipher[0], cipher[1..];
      assert Serialise(cipher) == Width(x, 32) + Serialise(tail);
      ChunkOfWidth(x, Serialise(tail), 32);
      ChunksSerialise(tail);
      assert cipher == [x] + tail;
    }
  }

  /** The payload is a digit string whose length is 32 bits per value
      plus the sentinel's 40; a multiple of 4. */
  lemma BitStringLength(cipher: seq<nat>)
    requires Fits32(cipher)
    ensures |BitString(cipher)| == 32 * |cipher| + 40
    ensures |BitString(cipher)| == 4 * (8 * |cipher| + 10)
    ensures IsDigits(BitString(cipher), 2)
    ensures BitString(cipher)[|BitString(cipher)| - 1] == 0
    ensures BitString(cipher)[|BitString(cipher)| - 2] == 0
  {
    SerialiseLength(cipher);
    SentinelFacts();
  }

  /** The sentinel occurs right after the serialised ciphertext. */
  lemma SentinelAtEnd(cipher: seq<nat>)
    ensures OccursAt(BitString(cipher), Sentinel(), |Serialise(cipher)|)
  {
    SentinelFacts();
    assert BitString(cipher)[|Serialise(cipher)|..|Serialise(cipher)| + 40] == Sentinel();
  }
}
