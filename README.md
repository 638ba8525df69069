# PNG steganography with textbook RSA, in Dafny

This project models the core of `png_steganography.py`, a command-line tool
that encrypts a text message with textbook RSA and hides it in the
least-significant bits of a PNG image's colour channels. It also proves
properties of that model.

The parts modelled:

- **Key generation** (`generate_keypair`, `gcd`, `xgcd`). The random
  exponent draws become a supplied sequence of candidates. The first draw
  coprime to phi = (p-1)(q-1) becomes `e`, and `d = xgcd(e, phi)[1] % phi`.
- **Block coding** (`find_blocksize`, `text2ints`, `ints2text`). The message
  bytes are zero-padded to whole blocks and read as big-endian integers.
  Decoding joins the blocks and cuts at the first zero byte.
- **Cipher** (`encrypt`, `decrypt`). Each block m is raised to e (or d)
  modulo n by square-and-multiply.
- **Hiding** (`hide_message` on the decoded pixel buffer):
  - every ciphertext integer becomes a 32-bit binary numeral, followed by
    the 40-bit sentinel "$EOT$";
  - a capacity check rejects payloads that do not fit and reports the
    overflow;
  - the embedding loop writes `bl` payload bits into each colour channel,
    pixel by pixel.
- **Extraction** (`extract_message`):
  - the reading loops collect the low `bl` bits of each colour channel;
  - the bits are cut at the first sentinel, split into 32-bit numerals and
    decrypted.

Modules, one file each:

- `Arith`: powers and division facts.
- `Wrappers`: `Option` and `Result`.
- `Numerals`: big-endian digit strings, shared by the base-256 and base-2
  encodings.
- `Search`: `split(sep)[0]`.
- `Euclid`: `gcd` and `xgcd`.
- `Fermat`: primes, the binomial theorem and Fermat's little theorem.
- `BlockCodec`: the block coding.
- `Rsa`: key generation and the cipher.
- `Bitstream`: the payload bit string.
- `Stego`: the pixel loops.

The pixel buffer is a mutable `array2<nat>`: one row per pixel, one column
per channel (3 for RGB, 4 for RGBA). The two loops of the program are
methods over it. Text is its UTF-8 byte string, a `seq<nat>` of values
below 256.

The main results:

- `Rsa.RsaCorrect` proves textbook RSA correct for distinct primes, via
  Fermat's little theorem and the Chinese remainder argument.
- `Rsa.KeyPairRoundTrip` proves that decrypting an encrypted message gives
  it back for the keys `generate_keypair` produces, provided the message has
  no zero byte (the program cuts at the first one).
- `Stego.EmbedExtractRoundTrip` proves that extracting from channels the
  payload was embedded into gives back the ciphertext.
- `Stego.HideThenReveal` chains hiding, extraction and decryption on one
  image. It hides the payload exactly when it fits, and then recovers any
  message without a zero byte. For an RGBA image this holds for the
  program as written. For an RGB image it holds with the reading loop
  scanning every pixel: the program scans only three (see "## Findings").

## Model

| member | source | states |
|---|---|---|
| Euclid.Xgcd | png_steganography.py:227-245 | the first component is the gcd, and the coefficients satisfy Bezout's identity a*x + b*y == gcd(a, b) |
| Euclid.GcdDivides | png_steganography.py:247-259 | `gcd(a, b)` divides both a and b |
| Euclid.GcdGreatest | png_steganography.py:247-259 | every common divisor of a and b divides `gcd(a, b)` |
| Euclid.ModInverse | png_steganography.py:175 | when gcd(e, phi) == 1, `xgcd(e, phi)[1] % phi` lies in [0, phi) and is the inverse of e modulo phi |
| Euclid.TextbookInverse | png_steganography.py:168-175 | for p = 61 and q = 53, e = 17 is coprime to phi = 3120 and the computed d is 2753 |
| Rsa.FirstCoprime | png_steganography.py:171-173 | the index of the first draw coprime to phi, with every earlier draw not coprime; None exactly when no draw is coprime |
| Rsa.GenerateKeypair | png_steganography.py:156-177 | fails on an empty exponent range exactly when phi < 3, and fails with exhausted draws exactly when no draw is coprime; otherwise e is the first coprime draw, both keys carry n = p*q, d < phi and e*d == 1 mod phi |
| Rsa.ModExp | png_steganography.py:192 | three-argument `pow` equals base**exp mod m |
| Rsa.Encrypt | png_steganography.py:179-192 | one ciphertext value per block of `text2ints`; each value is block**e mod n and lies below n |
| Rsa.Decrypt | png_steganography.py:195-208 | fails (an OverflowError in `to_bytes`, as with a wrong key) exactly when some value raised to d modulo n needs more than `find_blocksize(n)` bytes; otherwise returns bytes with no zero byte |
| Rsa.RsaCorrect | png_steganography.py:168-177 | for distinct primes and e*d == 1 mod (p-1)(q-1), raising to e and then to d modulo p*q returns every residue |
| Rsa.DecryptEncrypt | png_steganography.py:179-208 | decrypt(encrypt(t)) == t for a message without a zero byte, when n >= 256 and the exponents invert each other modulo n |
| Rsa.KeyPairRoundTrip | png_steganography.py:156-208 | decrypt(encrypt(t)) == t for every message t without a zero byte, under keys built as `generate_keypair` builds them from distinct primes with p*q >= 256 |
| BlockCodec.FindBlocksize | png_steganography.py:210-225 | the loop returns the least b >= 1 for which 2**(8(b+1)) - 1 >= n, which is the function `BlockSize` |
| BlockCodec.BlockSizeLeast | png_steganography.py:221-223 | `BlockSize(n)` ends the loop, and every smaller b >= 1 continues it |
| BlockCodec.BlockSizeUnique | png_steganography.py:221-223 | any least b that ends the loop equals `BlockSize(n)` |
| BlockCodec.BlockSizeMonotone | png_steganography.py:221-223 | a larger modulus never gets a smaller block size |
| BlockCodec.PadLength | png_steganography.py:135 | fewer than m zero bytes are added, and the padded length is a multiple of m |
| BlockCodec.Text2Ints | png_steganography.py:121-136 | ceil(len/m) blocks, each below 256**m for a byte string |
| BlockCodec.BlockCount | png_steganography.py:135-136 | padding does not change the number of m-byte blocks |
| BlockCodec.JoinBlocks | png_steganography.py:151 | `to_bytes(m)` fails (OverflowError) exactly when some value is at least 256**m; otherwise the join gives m bytes per value |
| BlockCodec.Ints2Text | png_steganography.py:138-154 | fails exactly when a value does not fit in m bytes; otherwise returns bytes without any zero byte |
| BlockCodec.JoinChunks | png_steganography.py:136 | cutting whole m-byte blocks with `from_bytes` and joining them with `to_bytes` is the identity |
| BlockCodec.HeadBeforePadding | png_steganography.py:151 | `split(b"\x00")[0]` removes exactly the zero padding from a message without zero bytes |
| BlockCodec.TextRoundTrip | png_steganography.py:121-154 | ints2text(text2ints(t, m), m) == t for every byte string t without a zero byte |
| BlockCodec.BlocksBelowModulus | png_steganography.py:191-192 | for n >= 256, every block under `find_blocksize(n)` is below n, so `pow` does not reduce it |
| Numerals.ToDigitsOfValue | png_steganography.py:136 | a big-endian digit string is recovered from its value and its length |
| Numerals.DigitsRoundTrip | png_steganography.py:151 | a value below base**w survives conversion to w digits and back |
| Numerals.BinValue | png_steganography.py:48 | `bin(x)[2:]` is a non-empty binary string whose value is x |
| Numerals.WidthLength | png_steganography.py:48 | `bin(x)[2:].zfill(w)` has exactly w characters iff x < 2**w, and never fewer |
| Numerals.WidthIsToDigits | png_steganography.py:48 | for x < 2**w, the zero-filled binary string is the w low bits of x |
| Numerals.ChunkOfWidth | png_steganography.py:101 | a w-bit numeral at the front of the bits is cut off as one slice whose `int(.., 2)` is the number written |
| Numerals.ChunksLength | png_steganography.py:101 | slicing every 32 characters gives ceil(len/32) numbers |
| Numerals.ChunksBound | png_steganography.py:101 | every slice read by `int(.., 2)` is below 2**32 |
| Search.Find | png_steganography.py:100 | the leftmost occurrence of the separator, with no occurrence before it |
| Search.SplitHeadAtFirst | png_steganography.py:100 | `split(sep)[0]` is the prefix before the first occurrence |
| Search.SplitHeadNone | png_steganography.py:100 | without an occurrence, `split(sep)[0]` is the whole string |
| Bitstream.SentinelBits | png_steganography.py:49 | the bits of "$EOT$" are 00100100 01000101 01001111 01010100 00100100 |
| Bitstream.SentinelSpelled | png_steganography.py:49 | the sentinel is the 8-bit numerals of the character codes 36, 69, 79, 84, 36 of "$EOT$", in order |
| Bitstream.SentinelFacts | png_steganography.py:49 | the sentinel has 40 bits and ends in two zero bits |
| Bitstream.SerialiseLength | png_steganography.py:48 | values below 2**32 serialise to 32 bits each |
| Bitstream.ChunksSerialise | png_steganography.py:101 | reading 32-bit slices back gives the ciphertext, when every value fits in 32 bits |
| Bitstream.BitStringLength | png_steganography.py:48-51 | `bits_needed` is 32 per value plus 40, a multiple of 4, and the last two bits are zero |
| Bitstream.SentinelAtEnd | png_steganography.py:49 | the sentinel occurs right after the serialised ciphertext |
| Stego.SetLowSpec | png_steganography.py:69-70 | masking keeps every bit above the low bl, sets the low bl bits to the group's value, and keeps a byte a byte |
| Stego.CapacityIsColourBits | png_steganography.py:52 | both capacity formulas (RGBA and RGB) equal 3 * pixels * bl |
| Stego.LowBitsLength | png_steganography.py:94-98 | the reading loops collect bl bits per colour channel |
| Stego.LowBitsAt | png_steganography.py:94-98 | bit t of channel k sits at position k*bl + t of the read bits |
| Stego.ByteLowBits | png_steganography.py:98 | `format(v, '08b')[8-bl:8]` is the bl-bit numeral of v mod 2**bl |
| Stego.ChannelEmbedBits | png_steganography.py:69-70 | reading back a channel written with a group gives that group, zero-filled on the left when the group was short |
| Stego.PayloadTailZero | png_steganography.py:48-49 | for bl in 1..4, any bits of the payload in a short final group are zero |
| Stego.GroupBit | png_steganography.py:69-70 | bit t of the k-th `bl`-bit slice, zero-filled to `bl` bits, is payload bit k*bl + t |
| Stego.EmbeddedBit | png_steganography.py:63-71 | payload bit k*bl + t, written into channel k, is read back at position k*bl + t |
| Stego.EmbeddedPrefix | png_steganography.py:63-71 | the bits read back from the embedded channels start with the whole payload |
| Stego.PastPayload | png_steganography.py:65-66 | channels past the payload keep their values |
| Stego.StagedStep | png_steganography.py:68-71 | passing channel c writes the next group into it when bits remain, and changes no other channel |
| Stego.EmbedChannelAt | png_steganography.py:68-71 | one pass of the inner loop body: channel j of pixel i gets its group if bits remain, every other channel and alpha keep their values, and the index moves on by bl exactly when it wrote |
| Stego.EmbedPixel | png_steganography.py:67-71 | after the inner loop over pixel i, every colour channel up to and including that pixel holds its embedded value, later ones keep theirs, and alpha is untouched |
| Stego.ColoursEmbedded | png_steganography.py:63-71 | once the loop has passed the payload, the colour channels read in order are the payload embedded into the old ones |
| Stego.EmbedBits | png_steganography.py:63-71 | every colour channel k gets the k-th bl-bit group while bits remain and keeps its value after; alpha is untouched |
| Stego.HideMessage | png_steganography.py:26-71 | reports an overflow of needed - available exactly when the payload does not fit, and then leaves the image unchanged; otherwise the colour channels are the payload embedded into the old ones and alpha is unchanged |
| Stego.ReadChannel | png_steganography.py:97-98 | the innermost loop collects exactly the low bl characters of `format(v, '08b')` |
| Stego.ReadPixel | png_steganography.py:96-98 | the loop over the three colour channels of a pixel collects their low bits in order |
| Stego.LowBitsAppend | png_steganography.py:95-98 | the bits read from two runs of channels are the bits of the first followed by those of the second |
| Stego.ColoursIndex | png_steganography.py:95-96 | channel j of pixel i is entry 3*i + j of the colour sequence the loops walk |
| Stego.ReadLowBits | png_steganography.py:94-98 | the three nested loops collect exactly the low bits of the scanned colour channels |
| Stego.SplitAtAppendedSentinel | png_steganography.py:100 | a bit run starting with the payload splits into exactly the serialised ciphertext |
| Stego.EmbedExtractRoundTrip | png_steganography.py:63-101 | extracting from channels the payload was embedded into gives the ciphertext back (bl in 1..4, values below 2**32, no early sentinel) |
| Stego.ExtractCipherAsWritten | png_steganography.py:91-101 | all pixels are scanned for RGBA but only three for RGB; fewer than three RGB pixels raise an IndexError |
| Stego.ShortScanLength | png_steganography.py:95 | a three-pixel scan always hands one or two integers to `decrypt` |
| Stego.ShortScanLosesPayload | png_steganography.py:95 | a three-pixel scan loses an empty ciphertext and any ciphertext of three or more blocks |
| Stego.EncryptEmpty | png_steganography.py:191-192 | the empty message encrypts to the empty list |
| Stego.ExtractCipher | png_steganography.py:94-101 | the list handed to `decrypt`, with every pixel scanned in both modes |
| Stego.ExtractMessageAsWritten | png_steganography.py:78-103 | `decrypt` of the integers read with the program's scan bound: every pixel for RGBA, three pixels for RGB, and an IndexError (None) for an RGB image under three pixels |
| Stego.ExtractMessage | png_steganography.py:78-103 | `decrypt` of the integers read from every pixel; for RGB this is the corrected scan bound, not the program's three pixels |
| Stego.HideThenReveal | png_steganography.py:26-103 | the payload is hidden exactly when it fits in 3 * pixels * bl bits; then, for keys `generate_keypair` builds from distinct primes with 256 <= n <= 2**32, a message without a zero byte and an image of byte values, extraction as the program writes it gives the message back from an RGBA image, and extraction scanning every pixel gives it back in both modes |

## Left out

- Image files, PIL and numpy are not modelled. The model starts from the decoded `img_data` buffer, and saving the image is left out.
- Reshaping the buffer and casting it back to `uint8` are left out, since every written channel stays a byte (`Stego.SetLowSpec`).
- `read_content`, the argument parser, `primes.json` and `generate_primes` are not modelled, because they are file and command-line I/O.
- In `hide_message`, `print` and `exit` become the result value `HideOutcome.TooLarge`. The OverflowError of `int.to_bytes` in `ints2text` becomes `DecodeError.BlockOverflow`. In `generate_keypair`, `KeyGenError.EmptyExponentRange` stands for the ValueError of `random.randint(2, phi - 1)` on an empty range, and `KeyGenError.CandidatesExhausted` for running out of the supplied draws.
- `random.randint` is replaced by a supplied sequence of draws. An endless run of non-coprime draws becomes the `CandidatesExhausted` failure.
- `str.encode()` and `bytes.decode()` (UTF-8) are not modelled. Messages are their byte strings, and a `UnicodeDecodeError` is not represented.
- Stego.Capacity: computes `(pixels * bit_len) / 4 * 3` with integer division, while png_steganography.py:52 uses a float and truncates with `int()`. For an RGBA buffer, `pixels * bit_len` is a multiple of 4, so the two agree whenever the numbers stay below 2**53, where floats are exact. Larger images are not modelled.
- Rsa.GenerateKeypair: does not check that p and q are prime, as the program does not. Primality is a precondition of the correctness results `Rsa.RsaCorrect`, `Rsa.KeyPairRoundTrip` and `Stego.HideThenReveal` only.
- Rsa.KeyPairRoundTrip: requires a message without a zero byte, and so does `Stego.HideThenReveal`. `ints2text` cuts the decrypted bytes at the first zero byte (`split(b"\x00")[0]`, png_steganography.py:151), so the program cannot return such a message either.
- Rsa.KeyPairRoundTrip: requires n >= 256. For a smaller n, one-byte blocks can reach n and are reduced by `pow`, so the program cannot round-trip them either.
- Stego.EmbedExtractRoundTrip: requires every ciphertext value below 2**32 (n <= 2**32). A larger value serialises to more than 32 bits and is not read back.
- Stego.EmbedExtractRoundTrip: requires that the ciphertext bits do not contain the sentinel. The program splits at the first occurrence wherever it is. The one-value ciphertext 608522068 (0x24454F54, the bits of "$EOT") is an example of such a collision.
- Stego.HideThenReveal: carries the same two requirements as `Stego.EmbedExtractRoundTrip`, for the same reasons.
- Stego.ExtractMessage, Stego.HideThenReveal: `ExtractMessage`, and the `message` result of `HideThenReveal`, use the corrected scan of every pixel for an RGB image. The program scans three pixels (png_steganography.py:95) and then loses the message (`Stego.ShortScanLosesPayload`). For RGB, only `messageAsWritten` follows the program, and no round trip is claimed for it.
- The bit-length argument is restricted to 1..4, as the program's argument parser does (`choices=range(1,5)`).

## Findings

| source | as written | input that shows it | evidently intended | confidence | as-written member | corrected member |
|---|---|---|---|---|---|---|
| png_steganography.py:95 | for an RGB image the reading loop scans only 3 pixels (`range(3)`); that is 9*bl <= 36 bits, fewer than the 40-bit sentinel | hide the empty message (ciphertext `[]`), or any message encrypting to 3 or more blocks, in an RGB image, then extract: the list handed to `decrypt` has 1 or 2 entries | scan every pixel, as the RGBA branch does (`img_data.size // 3` pixels for RGB); with that bound, hiding then extracting returns the message (`Stego.HideThenReveal`) | not executed | Stego.ShortScanLosesPayload | Stego.ExtractCipher |
