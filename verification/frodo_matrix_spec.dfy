/** What each entry of the FrodoKEM public matrix A must be, cell by cell,
    for the SHAKE128 expansion (Algorithm 8 of the FrodoKEM specification)
    and the AES128 expansion (Algorithm 7), with the properties of that
    definition: the range and congruence of an entry, which output bytes feed
    which cell, that distinct rows get distinct hash inputs, and that blocks
    get distinct plaintexts exactly when their indices differ modulo 2^16. */
module FrodoMatrixSpec {
  import opened JavaInt
  import opened Pack
  import opened Primitives

  /** `(short) (w % q)`: a decoded signed word reduced with Java's truncating
      remainder and narrowed back to a `short`. */
  function Reduce(w: int16, q: int): int16
    requires q != 0
  {
    ToShort(JavaRem(w as int, q))
  }

  /** The narrowing never truncates, and the entry is smaller than the
      modulus in magnitude, is zero or has the sign of the word, is congruent to it
      modulo q, and is the word itself when the modulus is larger than the
      word (so for q = 2^16 nothing changes). */
  lemma ReduceProperties(w: int16, q: int)
    requires q != 0
    ensures Reduce(w, q) as int == JavaRem(w as int, q)
    ensures Abs(Reduce(w, q) as int) < Abs(q)
    ensures Reduce(w, q) == 0 || (Reduce(w, q) < 0 <==> w < 0)
    ensures (w as int - Reduce(w, q) as int) % q == 0
    ensures Abs(w as int) < Abs(q) ==> Reduce(w, q) == w
  {
    JavaRemProperties(w as int, q);
    ToShortLowBits(JavaRem(w as int, q));
  }

  /** If d divides m and x and y agree modulo m, they agree modulo d. */
  lemma CongruentModDivisor(x: int, y: int, m: int, d: int)
    requires d > 0 && m > 0 && m % d == 0 && (y - x) % m == 0
    ensures x % d == y % d
  {
    var k := (y - x) / m;
    var t := m / d;
    assert y - x == m * k;
    assert m == d * t;
    assert y - x == d * (t * k);
    EuclidUnique(y, d, x / d + t * k, x % d);
  }

  /** For a modulus q that divides 2^16 (a power of two up to 2^16, as the
      scheme uses), the signed entry is congruent modulo q to the UNSIGNED
      16-bit word the two bytes encode, so `entry & (q - 1)` is that word
      modulo q, a value in [0, q). */
  lemma {:induction false} ReduceMatchesUnsignedWord(w: int16, q: int)
    requires q > 0 && 0x1_0000 % q == 0
    ensures Reduce(w, q) as int % q == (w as int % 0x1_0000) % q
  {
    var e := Reduce(w, q);
    ReduceProperties(w, q);
    assert (w as int % 0x1_0000 - w as int) % 0x1_0000 == 0 by {
      EuclidUnique(w as int % 0x1_0000 - w as int, 0x1_0000, -(w as int / 0x1_0000), 0);
    }
    CongruentModDivisor(w as int, w as int % 0x1_0000, 0x1_0000, q);
    CongruentModDivisor(e as int, w as int, q, q);
  }

  /** Word k of a primitive's output: bytes 2k (low) and 2k + 1 (high),
      decoded as a signed 16-bit value and reduced modulo q. */
  function DecodeWord(out: seq<byte>, q: int, k: int): int16
    requires q != 0 && 0 <= k && 2 * k + 2 <= |out|
  {
    Reduce(LittleEndianToShort(out, 2 * k), q)
  }

  /** Word k is read from bytes 2k and 2k + 1 and from nothing else. */
  lemma WordReadsItsBytes(out1: seq<byte>, out2: seq<byte>, q: int, k: int)
    requires q != 0 && 0 <= k && 2 * k + 2 <= |out1| && 2 * k + 2 <= |out2|
    requires out1[2 * k] == out2[2 * k] && out1[2 * k + 1] == out2[2 * k + 1]
    ensures DecodeWord(out1, q, k) == DecodeWord(out2, q, k)
  {
  }

  /** For q = 2^16 the word gives back its two bytes. */
  lemma WordDeterminesItsBytes(out1: seq<byte>, out2: seq<byte>, k: int)
    requires 0 <= k && 2 * k + 2 <= |out1| && 2 * k + 2 <= |out2|
    requires DecodeWord(out1, 0x1_0000, k) == DecodeWord(out2, 0x1_0000, k)
    ensures out1[2 * k] == out2[2 * k] && out1[2 * k + 1] == out2[2 * k + 1]
  {
    var w1, w2 := LittleEndianToShort(out1, 2 * k), LittleEndianToShort(out2, 2 * k);
    ReduceProperties(w1, 0x1_0000);
    ReduceProperties(w2, 0x1_0000);
    LittleEndianToShortInverse(out1, 2 * k);
    LittleEndianToShortInverse(out2, 2 * k);
    assert out1[2 * k..2 * k + 2] == out2[2 * k..2 * k + 2];
    assert out1[2 * k] == out1[2 * k..2 * k + 2][0] && out1[2 * k + 1] == out1[2 * k..2 * k + 2][1];
    assert out2[2 * k] == out2[2 * k..2 * k + 2][0] && out2[2 * k + 1] == out2[2 * k..2 * k + 2][1];
  }

  /** Each output byte feeds exactly one word: changing byte p alone leaves
      every word other than word p / 2 as it was, and for q = 2^16 word
      p / 2 tells the two outputs apart. */
  lemma {:induction false} ByteFeedsOneWord(out1: seq<byte>, out2: seq<byte>, q: int, p: int)
    requires q != 0 && |out1| == |out2| && 0 <= p < |out1|
    requires forall t :: 0 <= t < |out1| && t != p ==> out1[t] == out2[t]
    ensures forall k :: 0 <= k && 2 * k + 2 <= |out1| && k != p / 2 ==>
      DecodeWord(out1, q, k) == DecodeWord(out2, q, k)
    ensures q == 0x1_0000 && 2 * (p / 2) + 2 <= |out1| ==>
      (DecodeWord(out1, q, p / 2) == DecodeWord(out2, q, p / 2) <==> out1 == out2)
  {
    forall k | 0 <= k && 2 * k + 2 <= |out1| && k != p / 2
      ensures DecodeWord(out1, q, k) == DecodeWord(out2, q, k)
    {
      assert 2 * k != p && 2 * k + 1 != p;
      WordReadsItsBytes(out1, out2, q, k);
    }
    var k := p / 2;
    if q == 0x1_0000 && 2 * k + 2 <= |out1| && DecodeWord(out1, q, k) == DecodeWord(out2, q, k) {
      WordDeterminesItsBytes(out1, out2, k);
      assert p == 2 * k || p == 2 * k + 1;
      assert out1 == out2;
    }
  }

  // ----- SHAKE128 expansion (Algorithm 8) -----

  /** The hash input for row i: i as a 16-bit little-endian integer followed
      by the seed. Its first two bytes decode to i and the rest is the seed. */
  function ShakeInput(i: int, seedA: seq<byte>): (b: seq<byte>)
    requires 0 <= i < 0x8000
    ensures |b| == 2 + |seedA| && b[2..] == seedA
    ensures b[0] as int + 0x100 * b[1] as int == i
  {
    Le16(i) + seedA
  }

  /** Different rows, or different seeds, never share a hash input. */
  lemma {:induction false} ShakeInputInjective(i1: int, s1: seq<byte>, i2: int, s2: seq<byte>)
    requires 0 <= i1 < 0x8000 && 0 <= i2 < 0x8000
    ensures ShakeInput(i1, s1) == ShakeInput(i2, s2) <==> i1 == i2 && s1 == s2
  {
    if ShakeInput(i1, s1) == ShakeInput(i2, s2) {
      assert ShakeInput(i1, s1)[..2] == Le16(i1);
      assert ShakeInput(i2, s2)[..2] == Le16(i2);
      Le16Injective(i1, i2);
    }
  }

  /** The 2n bytes squeezed for row i: n words, one per column. */
  function ShakeRowOutput(xof: Xof, n: int, seedA: seq<byte>, i: int): (out: seq<byte>)
    requires 0 <= i < 0x8000 && n >= 0
    ensures |out| == 2 * n
  {
    xof(ShakeInput(i, seedA), 2 * n)
  }

  /** Entry A[i][j] of the SHAKE128 expansion: word j of row i's output. It
      depends on nothing but i, j, the seed and the parameters. */
  function ShakeEntry(xof: Xof, n: int, q: int, seedA: seq<byte>, i: int, j: int): int16
    requires 0 <= i < 0x8000 && 0 <= j < n && q != 0
  {
    DecodeWord(ShakeRowOutput(xof, n, seedA, i), q, j)
  }

  // ----- AES128 expansion (Algorithm 7) -----

  /** The plaintext block for row i and block column j: i and j masked to 16
      bits, each as a little-endian integer, then twelve zero bytes. */
  function AesBlock(i: int, j: int): (b: seq<byte>)
    ensures |b| == 16
    ensures b[0] as int + 0x100 * b[1] as int == i % 0x1_0000
    ensures b[2] as int + 0x100 * b[3] as int == j % 0x1_0000
    ensures forall t :: 4 <= t < 16 ==> b[t] == 0
  {
    Le16(i % 0x1_0000) + Le16(j % 0x1_0000) + seq(12, _ => 0)
  }

  /** Two cells share a plaintext block exactly when their row indices agree
      modulo 2^16 and so do their block column indices. */
  lemma {:induction false} AesBlockInjective(i1: int, j1: int, i2: int, j2: int)
    ensures AesBlock(i1, j1) == AesBlock(i2, j2) <==>
      i1 % 0x1_0000 == i2 % 0x1_0000 && j1 % 0x1_0000 == j2 % 0x1_0000
  {
    var b1, b2 := AesBlock(i1, j1), AesBlock(i2, j2);
    if b1 == b2 {
      assert b1[0] == b2[0] && b1[1] == b2[1] && b1[2] == b2[2] && b1[3] == b2[3];
    }
  }

  /** Entry A[i][c] of the AES128 expansion: the ciphertext of the block for
      row i and block column c - c % 8, word c % 8. */
  function AesEntry(aes: BlockCipher, q: int, seedA: seq<byte>, i: int, c: int): int16
    requires q != 0 && 0 <= c
  {
    var k := c % 8;
    DecodeWord(aes(seedA, AesBlock(i, c - k)), q, k)
  }

  /** Cell (i, j + k), for a block column j, is word k of the ciphertext of
      block (i, j): ciphertext bytes 2k and 2k + 1. */
  lemma AesEntryOfBlock(aes: BlockCipher, q: int, seedA: seq<byte>, i: int, j: int, k: int)
    requires q != 0 && 0 <= j && j % 8 == 0 && 0 <= k < 8
    ensures AesEntry(aes, q, seedA, i, j + k) == DecodeWord(aes(seedA, AesBlock(i, j)), q, k)
  {
    EuclidUnique(j + k, 8, j / 8, k);
  }

  /** Rows whose indices differ by 2^16 are equal, because the row index is
      masked to 16 bits before it is encoded. */
  lemma {:induction false} AesRowsRepeat(aes: BlockCipher, q: int, seedA: seq<byte>, i: int, c: int)
    requires q != 0 && 0 <= c
    ensures AesEntry(aes, q, seedA, i, c) == AesEntry(aes, q, seedA, i + 0x1_0000, c)
  {
    EuclidUnique(i + 0x1_0000, 0x1_0000, i / 0x1_0000 + 1, i % 0x1_0000);
    AesBlockInjective(i, c - c % 8, i + 0x1_0000, c - c % 8);
  }

  /** The block columns the AES loop visits: j = 0, 8, 16, ... while j < n. */
  predicate IsBlockStart(n: int, j: int)
  {
    0 <= j < n && j % 8 == 0
  }

  /** When n is a multiple of 8 the blocks tile each row: column c lies in
      exactly one visited block, the one starting at c - c % 8, and that
      block ends inside the row. */
  lemma BlocksTileRow(n: int, c: int, j: int)
    requires n % 8 == 0 && 0 <= c < n
    ensures IsBlockStart(n, c - c % 8) && c - c % 8 + 8 <= n
    ensures IsBlockStart(n, j) && j <= c < j + 8 ==> j == c - c % 8
  {
  }

  /** When n is a multiple of 8, a visited block ends inside the row and the
      next block column is again a multiple of 8. */
  lemma NextBlockStart(n: int, j: int)
    requires n % 8 == 0 && IsBlockStart(n, j)
    ensures j + 8 <= n && (j + 8) % 8 == 0
  {
    assert j == 8 * (j / 8) && n == 8 * (n / 8);
    EuclidUnique(j + 8, 8, j / 8 + 1, 0);
  }

  /** When n is positive and not a multiple of 8, the loop visits a last
      block whose columns run past the end of the row: the write to column
      j + 7 is out of bounds. */
  lemma LastBlockOverruns(n: int) returns (j: int)
    requires n > 0 && n % 8 != 0
    ensures IsBlockStart(n, j) && j + 7 >= n
  {
    j := n - n % 8;
  }
}
