/** The two FrodoKEM matrix generators. Each is configured with the matrix
    dimension n and the modulus q, holds its primitive as mutable state, and
    fills a fresh n x n matrix of `short`s cell by cell in nested loops. Each
    `GenMatrix` is proved to leave in every cell exactly the value the
    per-cell definitions of `FrodoMatrixSpec` give. */
module FrodoMatrixGenerator {
  import opened JavaInt
  import opened Pack
  import opened Primitives
  import opened FrodoMatrixSpec

  /** Expansion with SHAKE128, row by row (Algorithm 8). */
  class Shake128MatrixGenerator {
    const n: int32
    const q: int32
    const digest: ShakeDigest

    /** Between calls the digest holds nothing: every call, and every row,
        starts from a freshly reset SHAKE128 state. */
    ghost predicate Valid()
      reads digest
    {
      digest.absorbed == []
    }

    constructor (n: int32, q: int32, shake128: Xof)
      ensures this.n == n && this.q == q
      ensures fresh(digest) && digest.squeeze == shake128
      ensures Valid()
    {
      this.n := n;
      this.q := q;
      digest := new ShakeDigest(shake128);
    }

    /** Returns the n x n matrix whose cell (i, j) is word j of the 2n bytes
        SHAKE128 squeezes from `LE16(i) || seedA`, reduced modulo q. The row
        counter is a Java `short`, so n must fit below 2^15; a zero modulus
        would make `%` throw as soon as there is a cell to fill. */
    method GenMatrix(seedA: seq<byte>) returns (A: array2<int16>)
      requires Valid()
      requires 0 <= n <= 0x7fff && (n == 0 || q != 0)
      modifies digest
      ensures Valid()
      ensures fresh(A) && A.Length0 == n as int && A.Length1 == n as int
      ensures forall i, j :: 0 <= i < n as int && 0 <= j < n as int ==>
        A[i, j] == ShakeEntry(digest.squeeze, n as int, q as int, seedA, i, j)
    {
      A := new int16[n, n];
      var tmp := new byte[(16 * n as int) / 8];
      assert tmp.Length == 2 * n as int;
      var i: int16 := 0;
      while (i as int) < n as int
        invariant 0 <= i as int <= n as int
        invariant Valid() && tmp.Length == 2 * n as int
        invariant forall r, c :: 0 <= r < i as int && 0 <= c < n as int ==>
          A[r, c] == ShakeEntry(digest.squeeze, n as int, q as int, seedA, r, c)
      {
        var b := ShortToLittleEndian(i) + seedA;  // ByteUtils.concatenate
        JavaShakeInput(i, seedA);
        digest.Update(b, 0, |b|);
        assert b[0..|b|] == b;
        assert digest.absorbed == ShakeInput(i as int, seedA);
        digest.DoFinal(tmp, 0, tmp.Length);
        assert tmp[..] == tmp[0..tmp.Length];
        assert tmp[..] == ShakeRowOutput(digest.squeeze, n as int, seedA, i as int);
        var j: int16 := 0;
        while (j as int) < n as int
          modifies A
          invariant 0 <= j as int <= n as int
          invariant tmp[..] == ShakeRowOutput(digest.squeeze, n as int, seedA, i as int)
          invariant forall c :: 0 <= c < j as int ==>
            A[i, c] == ShakeEntry(digest.squeeze, n as int, q as int, seedA, i as int, c)
          invariant forall r, c :: 0 <= r < i as int && 0 <= c < n as int ==>
            A[r, c] == ShakeEntry(digest.squeeze, n as int, q as int, seedA, r, c)
        {
          A[i, j] := Reduce(LittleEndianToShort(tmp[..], 2 * j as int), q as int);
          j := j + 1;
        }
        i := i + 1;
      }
    }
  }

  /** Expansion with AES128, eight columns per block (Algorithm 7). */
  class Aes128MatrixGenerator {
    const n: int32
    const q: int32
    const cipher: AesCipher

    constructor (n: int32, q: int32, aes128: BlockCipher)
      ensures this.n == n && this.q == q
      ensures fresh(cipher) && cipher.encrypt == aes128 && !cipher.initialized
    {
      this.n := n;
      this.q := q;
      cipher := new AesCipher(aes128);
    }

    /** Keys the cipher with `keyBytes`, pushes the 16-byte block `msg`
        through the cipher stream and copies the resulting ciphertext into
        `out`: `out` ends up holding the encryption of `msg` under `keyBytes`. */
    method Aes128(out: array<byte>, keyBytes: seq<byte>, msg: array<byte>)
      requires out.Length == 16 && msg.Length == 16 && out != msg
      modifies cipher, out
      ensures cipher.initialized && cipher.key == keyBytes
      ensures out[..] == cipher.encrypt(keyBytes, msg[..])
    {
      cipher.Init(keyBytes);
      var streamed := StreamedBytes(msg[..]);
      var ciphertext := cipher.EncryptBlock(streamed);
      forall t | 0 <= t < 16 {
        out[t] := ciphertext[t];
      }
      assert out[..] == ciphertext && msg[..] == old(msg[..]);
    }

    /** Steps 5 and 6 of one block: stores word k of the ciphertext c,
        reduced modulo q, in cell (i, j + k) for k = 0..7, and nothing else.
        The ghost map `writes` gains one store for each of those cells. When
        those words are the values `entry` gives the eight cells, the region
        of cells that hold their expected values grows by the block. */
    method StoreBlock(A: array2<int16>, c: array<byte>, ghost entry: (int, int) -> int16, i: int, j: int,
                      ghost writes0: map<(int, int), nat>)
      returns (ghost writes: map<(int, int), nat>)
      requires q != 0 && c.Length == 16
      requires 0 <= i < A.Length0 && 0 <= j && j + 8 <= A.Length1
      requires forall col :: j <= col < j + 8 ==> entry(i, col) == DecodeWord(c[..], q as int, col - j)
      requires FilledUpTo(A, entry, i, j)
      modifies A
      ensures forall col :: j <= col < j + 8 ==> A[i, col] == DecodeWord(c[..], q as int, col - j)
      ensures forall r, col :: 0 <= r < A.Length0 && 0 <= col < A.Length1 && !(r == i && j <= col < j + 8) ==>
        A[r, col] == old(A[r, col])
      ensures FilledUpTo(A, entry, i, j + 8)
      ensures forall cell :: WriteCount(writes, cell) == WriteCount(writes0, cell) + BlockCount(cell, i, j, 8)
    {
      writes := writes0;
      var k := 0;
      while k < 8
        invariant 0 <= k <= 8
        invariant forall col :: j <= col < j + k ==> A[i, col] == DecodeWord(c[..], q as int, col - j)
        invariant forall r, col :: 0 <= r < A.Length0 && 0 <= col < A.Length1 && !(r == i && j <= col < j + k) ==>
          A[r, col] == old(A[r, col])
        invariant forall cell :: WriteCount(writes, cell) == WriteCount(writes0, cell) + BlockCount(cell, i, j, k)
      {
        A[i, j + k] := Reduce(LittleEndianToShort(c[..], 2 * k), q as int);
        writes := writes[(i, j + k) := WriteCount(writes, (i, j + k)) + 1];
        k := k + 1;
      }
    }

    /** Steps 3 to 6 for the block at row i, column j: encodes (i, j) into
        b, encrypts it under seedA into c, and stores the eight words of c,
        reduced modulo q, in cells (i, j..j + 8). Those cells are then filled
        with their entries, each has been stored once more, every other cell
        keeps its value, and the cipher is left keyed with seedA. */
    method GenBlock(A: array2<int16>, b: array<byte>, c: array<byte>, seedA: seq<byte>,
                    ghost entry: (int, int) -> int16, i: int, j: int, ghost writes0: map<(int, int), nat>)
      returns (ghost writes: map<(int, int), nat>)
      requires q != 0 && b.Length == 16 && c.Length == 16 && b != c
      requires forall t :: 4 <= t < 16 ==> b[t] == 0
      requires 0 <= i < A.Length0 && 0 <= j && j % 8 == 0 && j + 8 <= A.Length1
      requires forall col :: j <= col < j + 8 ==> entry(i, col) == AesEntry(cipher.encrypt, q as int, seedA, i, col)
      requires FilledUpTo(A, entry, i, j)
      modifies cipher, A, b, c
      ensures cipher.initialized && cipher.key == seedA
      ensures b[..] == AesBlock(i, j) && c[..] == cipher.encrypt(seedA, b[..])
      ensures forall col :: j <= col < j + 8 ==> A[i, col] == DecodeWord(c[..], q as int, col - j)
      ensures forall r, col :: 0 <= r < A.Length0 && 0 <= col < A.Length1 && !(r == i && j <= col < j + 8) ==>
        A[r, col] == old(A[r, col])
      ensures FilledUpTo(A, entry, i, j + 8)
      ensures forall cell :: WriteCount(writes, cell) == WriteCount(writes0, cell) + BlockCount(cell, i, j, 8)
    {
      EncodeBlock(b, i, j);
      Aes128(c, seedA, b);
      forall col | j <= col < j + 8
        ensures entry(i, col) == DecodeWord(c[..], q as int, col - j)
      {
        AesEntryOfBlock(cipher.encrypt, q as int, seedA, i, j, col - j);
      }
      writes := StoreBlock(A, c, entry, i, j, writes0);
    }

    /** Returns the n x n matrix whose cell (i, j + k), for each block column
        j = 0, 8, 16, ..., is word k of the AES encryption under seedA of
        `LE16(i) || LE16(j) || 0^12`, reduced modulo q. n must be a multiple
        of 8: otherwise the last block writes past the end of the row
        (`LastBlockOverruns`). The ghost map `writes` counts the stores into
        each cell: every cell of the matrix is stored exactly once, and
        nothing is stored outside it. Each block re-keys the shared cipher,
        so for n > 0 it is left keyed with seedA; for n = 0 it is untouched. */
    method GenMatrix(seedA: seq<byte>) returns (A: array2<int16>, ghost writes: map<(int, int), nat>)
      requires 0 <= n && n % 8 == 0 && (n == 0 || q != 0)
      modifies cipher
      ensures fresh(A) && A.Length0 == n as int && A.Length1 == n as int
      ensures forall i, c :: 0 <= i < n as int && 0 <= c < n as int ==>
        A[i, c] == AesEntry(cipher.encrypt, q as int, seedA, i, c)
      ensures forall cell :: WriteCount(writes, cell) == if InMatrix(cell, n as int) then 1 else 0
      ensures n > 0 ==> cipher.initialized && cipher.key == seedA
      ensures n == 0 ==> cipher.initialized == old(cipher.initialized) && cipher.key == old(cipher.key)
    {
      A := new int16[n, n];
      var b := new byte[16](_ => 0);
      var c := new byte[16](_ => 0);
      writes := map[];
      ghost var aes, modulus := cipher.encrypt, q as int;
      ghost var entry := (r: int, col: int) => if modulus != 0 && 0 <= col then AesEntry(aes, modulus, seedA, r, col) else 0;
      var i := 0;
      while i < n as int
        invariant 0 <= i <= n as int
        invariant forall t :: 4 <= t < 16 ==> b[t] == 0
        invariant FilledUpTo(A, entry, i, 0)
        invariant WrittenOnceUpTo(writes, n as int, i, 0)
        invariant i > 0 ==> cipher.initialized && cipher.key == seedA
        invariant i == 0 ==> cipher.initialized == old(cipher.initialized) && cipher.key == old(cipher.key)
      {
        var j := 0;
        while j < n as int
          invariant 0 <= j <= n as int && j % 8 == 0
          invariant forall t :: 4 <= t < 16 ==> b[t] == 0
          invariant FilledUpTo(A, entry, i, j)
          invariant WrittenOnceUpTo(writes, n as int, i, j)
          invariant i > 0 || j > 0 ==> cipher.initialized && cipher.key == seedA
          invariant i == 0 && j == 0 ==> cipher.initialized == old(cipher.initialized) && cipher.key == old(cipher.key)
        {
          NextBlockStart(n as int, j);
          ghost var writes0 := writes;
          writes := GenBlock(A, b, c, seedA, entry, i, j, writes);
          BlockWrittenOnce(writes0, writes, n as int, i, j);
          j := j + 8;
        }
        i := i + 1;
      }
    }
  }

  /** Whether cell lies in the n x n matrix. */
  predicate InMatrix(cell: (int, int), n: int)
  {
    0 <= cell.0 < n && 0 <= cell.1 < n
  }

  /** Whether cell comes before (i, col) in row-major order. */
  predicate Before(cell: (int, int), i: int, col: int)
  {
    cell.0 < i || (cell.0 == i && cell.1 < col)
  }

  /** How many stores into cell `writes` records. */
  function WriteCount(writes: map<(int, int), nat>, cell: (int, int)): nat
  {
    if cell in writes then writes[cell] else 0
  }

  /** One store for each of the first k cells of the block at (i, j). */
  function BlockCount(cell: (int, int), i: int, j: int, k: int): nat
  {
    if cell.0 == i && j <= cell.1 < j + k then 1 else 0
  }

  /** Every cell of the matrix before (i, col) was stored exactly once, and
      no other cell, inside the matrix or out of it, was stored. */
  ghost predicate WrittenOnceUpTo(writes: map<(int, int), nat>, n: int, i: int, col: int)
  {
    forall cell :: WriteCount(writes, cell) == if InMatrix(cell, n) && Before(cell, i, col) then 1 else 0
  }

  /** Storing a whole block of eight cells (i, j..j + 8), with j a block
      start inside the row, moves the frontier of stored cells from (i, j)
      to (i, j + 8). */
  lemma BlockWrittenOnce(writes0: map<(int, int), nat>, writes: map<(int, int), nat>, n: int, i: int, j: int)
    requires 0 <= i < n && 0 <= j && j + 8 <= n
    requires WrittenOnceUpTo(writes0, n, i, j)
    requires forall cell :: WriteCount(writes, cell) == WriteCount(writes0, cell) + BlockCount(cell, i, j, 8)
    ensures WrittenOnceUpTo(writes, n, i, j + 8)
  {
    forall cell
      ensures WriteCount(writes, cell) == if InMatrix(cell, n) && Before(cell, i, j + 8) then 1 else 0
    {
      assert WriteCount(writes0, cell) == if InMatrix(cell, n) && Before(cell, i, j) then 1 else 0;
    }
  }

  /** The bytes `aes128` writes into its cipher stream: the first half of
      `msg` one byte at a time, then the second half in one bulk write. The
      stream receives the whole message, in order. */
  method StreamedBytes(msg: seq<byte>) returns (written: seq<byte>)
    ensures written == msg
  {
    written := [];
    var i := 0;
    while i != |msg| / 2
      invariant 0 <= i <= |msg| / 2
      invariant written == msg[..i]
    {
      written := written + [msg[i]];
      i := i + 1;
    }
    written := written + msg[|msg| / 2..];
  }

  /** Step 3 of Algorithm 7 as the two `System.arraycopy` calls do it:
      bytes 0..2 of b get `Pack.shortToLittleEndian((short) (i & 0xffff))`,
      bytes 2..4 the same for j. With the twelve zero bytes b already holds,
      b is then the plaintext block for (i, j). */
  method EncodeBlock(b: array<byte>, i: int, j: int)
    requires 0 <= i && 0 <= j
    requires b.Length == 16 && forall t :: 4 <= t < 16 ==> b[t] == 0
    modifies b
    ensures b[..] == AesBlock(i, j)
  {
    var iBytes := ShortToLittleEndian(ToShort(i % 0x1_0000));  // (short) (i & 0xffff)
    b[0], b[1] := iBytes[0], iBytes[1];
    var jBytes := ShortToLittleEndian(ToShort(j % 0x1_0000));  // (short) (j & 0xffff)
    b[2], b[3] := jBytes[0], jBytes[1];
    JavaBlockEncoding(i, j);
  }

  /** The hash input the SHAKE128 generator assembles from
      `Pack.shortToLittleEndian` of its `short` row counter is the one of
      Algorithm 8. */
  lemma JavaShakeInput(i: int16, seedA: seq<byte>)
    requires 0 <= i
    ensures ShortToLittleEndian(i) + seedA == ShakeInput(i as int, seedA)
  {
    EuclidUnique(i as int, 0x1_0000, 0, i as int);
    ShortToLittleEndianIsLe16(i);
  }

  /** The encoding the AES generator assembles from `Pack.shortToLittleEndian`
      of the masked counters is the plaintext block of Algorithm 7. */
  lemma JavaBlockEncoding(i: int, j: int)
    ensures ShortToLittleEndian(ToShort(i % 0x1_0000)) + ShortToLittleEndian(ToShort(j % 0x1_0000))
      + seq(12, _ => 0) == AesBlock(i, j)
  {
    var si, sj := ToShort(i % 0x1_0000), ToShort(j % 0x1_0000);
    ToShortLowBits(i % 0x1_0000);
    ToShortLowBits(j % 0x1_0000);
    EuclidUnique(i % 0x1_0000, 0x1_0000, 0, i % 0x1_0000);
    EuclidUnique(j % 0x1_0000, 0x1_0000, 0, j % 0x1_0000);
    ShortToLittleEndianIsLe16(si);
    ShortToLittleEndianIsLe16(sj);
  }

  /** In row-major order, every cell of A before (i, col) holds the value
      `entry` gives for it. */
  ghost predicate FilledUpTo(A: array2<int16>, entry: (int, int) -> int16, i: int, col: int)
    reads A
  {
    forall r, c :: 0 <= r < A.Length0 && 0 <= c < A.Length1 && Before((r, c), i, col) ==> A[r, c] == entry(r, c)
  }

  /** Two calls with the same seed on the same SHAKE128 generator give the
      same matrix: the first call leaves no trace in the digest. */
  method ShakeSameSeedSameMatrix(g: Shake128MatrixGenerator, seedA: seq<byte>)
    returns (A1: array2<int16>, A2: array2<int16>)
    requires g.Valid()
    requires 0 <= g.n <= 0x7fff && (g.n == 0 || g.q != 0)
    modifies g.digest
    ensures g.Valid()
    ensures A1.Length0 == A2.Length0 == A1.Length1 == A2.Length1 == g.n as int
    ensures forall i, j :: 0 <= i < g.n as int && 0 <= j < g.n as int ==> A1[i, j] == A2[i, j]
  {
    A1 := g.GenMatrix(seedA);
    A2 := g.GenMatrix(seedA);
  }

  /** Two calls with the same seed on the same AES128 generator give the same
      matrix: each block is keyed afresh with the seed. */
  method AesSameSeedSameMatrix(g: Aes128MatrixGenerator, seedA: seq<byte>)
    returns (A1: array2<int16>, A2: array2<int16>)
    requires 0 <= g.n && g.n % 8 == 0 && (g.n == 0 || g.q != 0)
    modifies g.cipher
    ensures A1.Length0 == A2.Length0 == A1.Length1 == A2.Length1 == g.n as int
    ensures forall i, j :: 0 <= i < g.n as int && 0 <= j < g.n as int ==> A1[i, j] == A2[i, j]
  {
    ghost var writes;
    A1, writes := g.GenMatrix(seedA);
    A2, writes := g.GenMatrix(seedA);
  }
}
