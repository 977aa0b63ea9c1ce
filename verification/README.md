# FrodoKEM public-matrix generation, modelled in Dafny

Bouncy Castle's FrodoKEM implementation expands a public seed `seedA` into the
n x n matrix A of 16-bit entries. It does this in
`core/src/main/java/org/bouncycastle/pqc/crypto/frodo/FrodoMatrixGenerator.java`,
which has two strategies:

- `Shake128MatrixGenerator` (Algorithm 8 of the FrodoKEM specification) works
  row by row. Row i hashes `LE16(i) || seedA` with SHAKE128 (FIPS 202) to 2n
  bytes. It reads those bytes as n little-endian 16-bit words and reduces
  each word modulo q.
- `Aes128MatrixGenerator` (Algorithm 7) works in blocks of eight columns.
  Block (i, j) encrypts `LE16(i) || LE16(j) || 0^12` with AES-128 (FIPS 197)
  under the key `seedA`. It reads the ciphertext as eight little-endian words,
  reduces each modulo q and stores them in columns j..j+7 of row i.

The model has five modules:

- `JavaInt` (`java_int.dfy`) covers Java `short`, `int` and `byte`, the
  narrowing cast `(short)`, and Java's truncating `/` and `%` on
  unbounded integers. Lemmas beside the cast and `%` state their properties;
  the properties of `/` are stated through those of `%`
  (`JavaRemOfMagnitudes`), the only place the generator uses it.
- `Pack` (`pack.dfy`) covers the two byte-order conversions the generator
  calls, `Pack.shortToLittleEndian` and `Pack.littleEndianToShort`, and
  proves them inverse to each other.
- `Primitives` (`primitives.dfy`) has the SHAKE128 digest object and the AES
  cipher object as small classes, holding the state the generator changes
  (absorbed input, reset on `doFinal`; key). The primitives themselves (the
  SHAKE128 extendable-output function and the AES block cipher) are function
  values passed in from outside.
- `FrodoMatrixSpec` (`frodo_matrix_spec.dfy`) gives the value of every cell
  as a pure function (`ShakeEntry`, `AesEntry`), with the properties of
  those definitions.
- `FrodoMatrixGenerator` (`frodo_matrix_generator.dfy`) has the two
  generator classes. Each `GenMatrix` fills a fresh `array2<int16>` in the
  nested loops of the source. It is proved to leave in every cell exactly
  the value the per-cell function gives. For AES it is also proved to store
  into every cell exactly once.

Where the FrodoKEM specification and the code disagree, the model follows the
code. The specification describes matrix entries as values in [0, q). The code
decodes each word as a SIGNED `short` and reduces it with Java's truncating
`%`, so an entry lies strictly between -q and q and is either zero or of the
sign of the word. A nonzero word can reduce to zero: -32768 with q = 32768
gives 0.
`ReduceProperties` states this range. `ReduceMatchesUnsignedWord` shows
that, for every modulus dividing 2^16, the signed entry is congruent modulo q
to the unsigned word that the specification reduces.

## Model

| member | source | states |
|---|---|---|
| JavaInt.ToShort | core/src/main/java/org/bouncycastle/pqc/crypto/frodo/FrodoMatrixGenerator.java:54 | the narrowing cast `(short) x` of lines 54, 87, 88 and 98, defined by keeping the low 16 bits of x as two's complement; its properties are the ensures of `ToShortLowBits` and `ToShortUnique` |
| JavaInt.ToShortLowBits | core/src/main/java/org/bouncycastle/pqc/crypto/frodo/FrodoMatrixGenerator.java:54 | `(short) x` keeps the low 16 bits of x, and is x itself when x fits in a `short` |
| JavaInt.ToShortUnique | core/src/main/java/org/bouncycastle/pqc/crypto/frodo/FrodoMatrixGenerator.java:54 | a `short` with the same low 16 bits as x is `(short) x` |
| JavaInt.JavaDiv | core/src/main/java/org/bouncycastle/pqc/crypto/frodo/FrodoMatrixGenerator.java:54 | Java's `/` on `int`, the quotient rounded toward zero; it enters the generator only through `%`, and `JavaRemOfMagnitudes` states what that gives |
| JavaInt.JavaRem | core/src/main/java/org/bouncycastle/pqc/crypto/frodo/FrodoMatrixGenerator.java:54 | Java's `%` on `int`, defined from `/` as Java defines it (`(a / b) * b + a % b == a`); its properties are the ensures of `JavaRemOfMagnitudes` and `JavaRemProperties` |
| JavaInt.JavaRemOfMagnitudes | core/src/main/java/org/bouncycastle/pqc/crypto/frodo/FrodoMatrixGenerator.java:54 | Java's `a % b` is the remainder of the magnitudes of a and b, with the sign of a |
| JavaInt.JavaRemProperties | core/src/main/java/org/bouncycastle/pqc/crypto/frodo/FrodoMatrixGenerator.java:54 | Java's `a % b` is smaller in magnitude than b and no larger than a; it is zero or has a's sign; `a - a % b` is a multiple of b; it is a itself when a is smaller than b in magnitude |
| Pack.Le16 | core/src/main/java/org/bouncycastle/pqc/crypto/frodo/FrodoMatrixGenerator.java:46-47 | the 16-bit little-endian encoding: two bytes, low byte first, whose weighted sum is the value |
| Pack.Le16Injective | core/src/main/java/org/bouncycastle/pqc/crypto/frodo/FrodoMatrixGenerator.java:46-47 | two 16-bit values have the same little-endian encoding exactly when they are equal |
| Pack.ShortToLittleEndian | core/src/main/java/org/bouncycastle/pqc/crypto/frodo/FrodoMatrixGenerator.java:47 | `Pack.shortToLittleEndian`, as called at lines 47, 87 and 88; `ShortToLittleEndianIsLe16` states that it is the little-endian encoding of the bit pattern |
| Pack.ShortToLittleEndianIsLe16 | core/src/main/java/org/bouncycastle/pqc/crypto/frodo/FrodoMatrixGenerator.java:47 | `Pack.shortToLittleEndian(n)` (sign-extended to `int`, then `>>> 8`) is the little-endian encoding of n's 16-bit pattern, whatever its sign |
| Pack.LittleEndianToShort | core/src/main/java/org/bouncycastle/pqc/crypto/frodo/FrodoMatrixGenerator.java:54 | `Pack.littleEndianToShort`, as called at lines 54 and 98; `LittleEndianToShortInverse` and `ShortRoundTrip` state that it inverts `ShortToLittleEndian` |
| Pack.LittleEndianToShortInverse | core/src/main/java/org/bouncycastle/pqc/crypto/frodo/FrodoMatrixGenerator.java:54 | `Pack.littleEndianToShort(bs, off)` has `bs[off] + 256 * bs[off + 1]` as its bit pattern, and re-encoding it gives back `bs[off..off + 2]` |
| Pack.ShortRoundTrip | core/src/main/java/org/bouncycastle/pqc/crypto/frodo/FrodoMatrixGenerator.java:47-54 | decoding the encoding of any `short` gives that `short` back |
| FrodoMatrixSpec.Reduce | core/src/main/java/org/bouncycastle/pqc/crypto/frodo/FrodoMatrixGenerator.java:54 | `(short) (w % q)`, the reduction at lines 54 and 98; `ReduceProperties` and `ReduceMatchesUnsignedWord` state its range, sign and congruence |
| FrodoMatrixSpec.ReduceProperties | core/src/main/java/org/bouncycastle/pqc/crypto/frodo/FrodoMatrixGenerator.java:54 | `(short) (w % q)`: the cast never truncates; the entry is smaller than q in magnitude, zero or of w's sign, congruent to w modulo q, and w itself when w is smaller than q in magnitude (so q = 2^16 changes nothing) |
| FrodoMatrixSpec.CongruentModDivisor | core/src/main/java/org/bouncycastle/pqc/crypto/frodo/FrodoMatrixGenerator.java:54 | values congruent modulo m are congruent modulo every divisor of m |
| FrodoMatrixSpec.ReduceMatchesUnsignedWord | core/src/main/java/org/bouncycastle/pqc/crypto/frodo/FrodoMatrixGenerator.java:54 | for q dividing 2^16, the signed entry is congruent modulo q to the unsigned 16-bit word |
| FrodoMatrixSpec.DecodeWord | core/src/main/java/org/bouncycastle/pqc/crypto/frodo/FrodoMatrixGenerator.java:52-54 | word k of a primitive's output (bytes 2k and 2k + 1, at lines 54 and 98), reduced modulo q; `WordReadsItsBytes`, `WordDeterminesItsBytes` and `ByteFeedsOneWord` state which bytes it depends on |
| FrodoMatrixSpec.WordReadsItsBytes | core/src/main/java/org/bouncycastle/pqc/crypto/frodo/FrodoMatrixGenerator.java:52-54 | word k depends only on bytes 2k and 2k + 1 of the output |
| FrodoMatrixSpec.WordDeterminesItsBytes | core/src/main/java/org/bouncycastle/pqc/crypto/frodo/FrodoMatrixGenerator.java:54 | for q = 2^16, equal words k come from equal bytes 2k and 2k + 1 |
| FrodoMatrixSpec.ByteFeedsOneWord | core/src/main/java/org/bouncycastle/pqc/crypto/frodo/FrodoMatrixGenerator.java:49-54 | each output byte feeds exactly one word: changing byte p alone changes no word but p / 2, and for q = 2^16 word p / 2 changes exactly when the bytes differ |
| FrodoMatrixSpec.ShakeInput | core/src/main/java/org/bouncycastle/pqc/crypto/frodo/FrodoMatrixGenerator.java:46-47 | the hash input for row i is two bytes longer than the seed, opens with i in little-endian order and continues with the seed |
| FrodoMatrixSpec.ShakeInputInjective | core/src/main/java/org/bouncycastle/pqc/crypto/frodo/FrodoMatrixGenerator.java:46-47 | two rows share a hash input exactly when their row indices and seeds are equal |
| FrodoMatrixSpec.ShakeRowOutput | core/src/main/java/org/bouncycastle/pqc/crypto/frodo/FrodoMatrixGenerator.java:43-51 | the squeeze for a row is 2n bytes long, one word per column |
| FrodoMatrixSpec.ShakeEntry | core/src/main/java/org/bouncycastle/pqc/crypto/frodo/FrodoMatrixGenerator.java:52-54 | the value line 54 stores in cell (i, j): word j of the squeeze for row i, reduced modulo q; `ShakeInput`, `ShakeInputInjective`, `ShakeRowOutput` and `ByteFeedsOneWord` state its properties |
| FrodoMatrixSpec.AesBlock | core/src/main/java/org/bouncycastle/pqc/crypto/frodo/FrodoMatrixGenerator.java:86-88 | the plaintext for (i, j) is 16 bytes: `i & 0xffff` and `j & 0xffff` in little-endian order, then twelve zero bytes |
| FrodoMatrixSpec.AesBlockInjective | core/src/main/java/org/bouncycastle/pqc/crypto/frodo/FrodoMatrixGenerator.java:86-88 | two blocks are equal exactly when the row indices agree modulo 2^16 and the column indices do too |
| FrodoMatrixSpec.AesEntry | core/src/main/java/org/bouncycastle/pqc/crypto/frodo/FrodoMatrixGenerator.java:94-98 | the value line 98 stores in cell (i, c): word c mod 8 of the encryption under seedA of the block for (i, c - c mod 8), reduced modulo q; `AesEntryOfBlock` and `AesRowsRepeat` state its properties |
| FrodoMatrixSpec.AesEntryOfBlock | core/src/main/java/org/bouncycastle/pqc/crypto/frodo/FrodoMatrixGenerator.java:94-98 | cell (i, j + k) of a block column j is word k (ciphertext bytes 2k, 2k + 1) of the encryption of block (i, j) |
| FrodoMatrixSpec.AesRowsRepeat | core/src/main/java/org/bouncycastle/pqc/crypto/frodo/FrodoMatrixGenerator.java:87 | because the row index is masked to 16 bits, rows i and i + 2^16 have the same entries |
| FrodoMatrixSpec.BlocksTileRow | core/src/main/java/org/bouncycastle/pqc/crypto/frodo/FrodoMatrixGenerator.java:83-98 | when 8 divides n, each column lies in exactly one visited block, which ends inside the row |
| FrodoMatrixSpec.NextBlockStart | core/src/main/java/org/bouncycastle/pqc/crypto/frodo/FrodoMatrixGenerator.java:83 | when 8 divides n, a visited block ends inside the row and the next block column is a multiple of 8 |
| FrodoMatrixSpec.LastBlockOverruns | core/src/main/java/org/bouncycastle/pqc/crypto/frodo/FrodoMatrixGenerator.java:83-98 | when n > 0 is not a multiple of 8, the loop visits a block whose column j + 7 is past the end of the row |
| Primitives.ShakeDigest.constructor | core/src/main/java/org/bouncycastle/pqc/crypto/frodo/FrodoMatrixGenerator.java:33 | a new SHAKE128 digest has absorbed nothing |
| Primitives.ShakeDigest.Update | core/src/main/java/org/bouncycastle/pqc/crypto/frodo/FrodoMatrixGenerator.java:50 | `update(b, off, len)` appends `b[off..off + len]` to what has been absorbed |
| Primitives.ShakeDigest.DoFinal | core/src/main/java/org/bouncycastle/pqc/crypto/frodo/FrodoMatrixGenerator.java:51 | `doFinal(out, off, len)` writes the len-byte squeeze of everything absorbed to `out[off..off + len]`, leaves the rest of out alone and resets the digest |
| Primitives.AesCipher.constructor | core/src/main/java/org/bouncycastle/pqc/crypto/frodo/FrodoMatrixGenerator.java:68 | `Cipher.getInstance` gives a cipher object over the AES block cipher that is not yet keyed |
| Primitives.AesCipher.Init | core/src/main/java/org/bouncycastle/pqc/crypto/frodo/FrodoMatrixGenerator.java:108-109 | `cipher.init` keys the cipher for encryption |
| Primitives.AesCipher.EncryptBlock | core/src/main/java/org/bouncycastle/pqc/crypto/frodo/FrodoMatrixGenerator.java:112-120 | a 16-byte block is encrypted under the current key |
| FrodoMatrixGenerator.Shake128MatrixGenerator.constructor | core/src/main/java/org/bouncycastle/pqc/crypto/frodo/FrodoMatrixGenerator.java:33-37 | the generator keeps n and q and starts with a fresh, empty digest |
| FrodoMatrixGenerator.Shake128MatrixGenerator.GenMatrix | core/src/main/java/org/bouncycastle/pqc/crypto/frodo/FrodoMatrixGenerator.java:39-58 | returns a fresh n x n matrix whose every cell (i, j) is word j of the SHAKE128 output for row i, reduced modulo q, and leaves the digest empty |
| FrodoMatrixGenerator.JavaShakeInput | core/src/main/java/org/bouncycastle/pqc/crypto/frodo/FrodoMatrixGenerator.java:47 | `ByteUtils.concatenate(Pack.shortToLittleEndian(i), seedA)` for the `short` counter is the row's hash input |
| FrodoMatrixGenerator.Aes128MatrixGenerator.constructor | core/src/main/java/org/bouncycastle/pqc/crypto/frodo/FrodoMatrixGenerator.java:65-69 | the generator keeps n and q and holds a fresh AES cipher object that is not yet keyed |
| FrodoMatrixGenerator.StreamedBytes | core/src/main/java/org/bouncycastle/pqc/crypto/frodo/FrodoMatrixGenerator.java:115-119 | the byte-by-byte writes of the first half of msg followed by the bulk write of the rest deliver exactly msg to the cipher stream, in order |
| FrodoMatrixGenerator.Aes128MatrixGenerator.Aes128 | core/src/main/java/org/bouncycastle/pqc/crypto/frodo/FrodoMatrixGenerator.java:105-123 | keys the cipher with keyBytes and leaves in out the encryption of msg under keyBytes |
| FrodoMatrixGenerator.EncodeBlock | core/src/main/java/org/bouncycastle/pqc/crypto/frodo/FrodoMatrixGenerator.java:87-88 | the two `System.arraycopy` calls turn a buffer whose bytes 4..15 are zero into the plaintext block for (i, j) |
| FrodoMatrixGenerator.JavaBlockEncoding | core/src/main/java/org/bouncycastle/pqc/crypto/frodo/FrodoMatrixGenerator.java:87-88 | `Pack.shortToLittleEndian((short) (x & 0xffff))` for i and j, followed by twelve zero bytes, is the plaintext block |
| FrodoMatrixGenerator.Aes128MatrixGenerator.StoreBlock | core/src/main/java/org/bouncycastle/pqc/crypto/frodo/FrodoMatrixGenerator.java:94-99 | stores word k of the ciphertext, reduced modulo q, in cell (i, j + k) for k = 0..7, changes no other cell, and records one store per cell of the block |
| FrodoMatrixGenerator.Aes128MatrixGenerator.GenBlock | core/src/main/java/org/bouncycastle/pqc/crypto/frodo/FrodoMatrixGenerator.java:86-99 | one pass of the block loop: b becomes the plaintext for (i, j), c its encryption under seedA, cells (i, j..j + 8) get their entries, every other cell keeps its value, and the cipher is left keyed with seedA |
| FrodoMatrixGenerator.BlockWrittenOnce | core/src/main/java/org/bouncycastle/pqc/crypto/frodo/FrodoMatrixGenerator.java:83-98 | storing a block moves the frontier of cells stored exactly once from (i, j) to (i, j + 8), and no cell outside the matrix is ever stored |
| FrodoMatrixGenerator.Aes128MatrixGenerator.GenMatrix | core/src/main/java/org/bouncycastle/pqc/crypto/frodo/FrodoMatrixGenerator.java:71-103 | returns a fresh n x n matrix whose every cell (i, c) is word c mod 8 of the encryption of block (i, c - c mod 8), reduced modulo q; every cell is stored exactly once and nothing outside the matrix is stored; for n > 0 the shared cipher is left keyed with seedA, and for n = 0 it is untouched |
| FrodoMatrixGenerator.ShakeSameSeedSameMatrix | core/src/main/java/org/bouncycastle/pqc/crypto/frodo/FrodoMatrixGenerator.java:39-58 | two calls with the same seed on one SHAKE128 generator give the same matrix: no state carries over between calls |
| FrodoMatrixGenerator.AesSameSeedSameMatrix | core/src/main/java/org/bouncycastle/pqc/crypto/frodo/FrodoMatrixGenerator.java:71-103 | two calls with the same seed on one AES128 generator give the same matrix |

## Left out

- The SHAKE128 extendable-output function and the AES block cipher are not
  modelled. Each is a function value
  handed to the generator's constructor. Only its output length is constrained:
  `len` bytes for the extendable-output function, 16 bytes for one AES block.
- `Cipher.getInstance("AES/ECB/NoPadding", "BC")` and the checked exceptions of
  the constructor, `cipher.init` and `genMatrix` are not modelled, since they
  are provider lookup and library plumbing.
- `FrodoMatrixGenerator.Aes128MatrixGenerator.Aes128` accepts a key of any
  length. Two errors are not modelled: the `IllegalArgumentException` that
  `new SecretKeySpec(keyBytes, "AES")` throws for an empty seed, and the
  invalid-key error that `cipher.init` raises for key lengths AES does not
  allow.
- `FrodoMatrixGenerator.Aes128MatrixGenerator.Aes128` keeps the order in
  which the message reaches the `CipherOutputStream` (`StreamedBytes`) but not
  the stream objects themselves: the bytes collected are encrypted as one
  16-byte block when the stream is closed, which is what ECB mode without
  padding produces for one block.
- `Pack.java` and `ByteUtils.java` are not part of this model. Their two
  conversions and the concatenation are written out from what the generator
  requires of them.
- Concurrency is not modelled. The `digest` and `cipher` fields are shared
  mutable state, and the model assumes one caller at a time.
- `short[n][n]` is a rectangular `array2<int16>` here, so the row objects of a
  Java jagged array, and any aliasing between them, are not modelled.
- FrodoMatrixGenerator.Shake128MatrixGenerator.GenMatrix requires
  `0 <= n <= 32767`. The loop counters are Java `short`s. For a larger n the
  column counter `j` wraps to -32768 already in row 0, after column 32767.
  The next pass then evaluates `Pack.littleEndianToShort(tmp, 2 * j)` at
  offset -65536, which throws `ArrayIndexOutOfBoundsException` before the
  store's own index is checked, so no store happens. For a negative n,
  `new short[n][n]` throws
  `NegativeArraySizeException`. Both are modelled as the precondition, not as
  exceptions.
- FrodoMatrixGenerator.Aes128MatrixGenerator.GenMatrix requires `n % 8 == 0`.
  Otherwise the last block writes past the end of a row
  (`FrodoMatrixSpec.LastBlockOverruns`) and Java throws. This, and
  `NegativeArraySizeException` for a negative n, are modelled as the
  precondition.
- Both `GenMatrix` methods require `q != 0` whenever the matrix has a cell.
  Java's `%` throws `ArithmeticException` for a zero divisor. The model states
  this as a precondition rather than an exception path.
- The constructors accept any n and q, as the source does. No parameter or
  seed-length validation is modelled, because the code has none.
