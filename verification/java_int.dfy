/** Java's fixed-width integer types and the integer operators the matrix
    generator relies on, written out over Dafny's unbounded integers. Each
    operator is a plain definition; what it guarantees is stated by the lemma
    that follows it. */
module JavaInt {

  /** Java `short`: 16-bit two's complement. */
  newtype int16 = x: int | -0x8000 <= x < 0x8000

  /** Java `int`: 32-bit two's complement. */
  newtype int32 = x: int | -0x8000_0000 <= x < 0x8000_0000

  /** The eight bits of a Java `byte`, read as an unsigned number. The
      generator reads bytes only through `Pack.littleEndianToShort`, which
      masks each one with `& 0xff`, so only the bit pattern matters. */
  newtype byte = x: int | 0 <= x < 0x100

  function Abs(x: int): nat
  {
    if x < 0 then -x else x
  }

  /** A nonzero multiple of b is at least as large as b in magnitude. */
  lemma MultipleAtLeast(b: int, x: int)
    requires b != 0 && x != 0
    ensures Abs(b * x) >= Abs(b)
  {
    var ab, ax := Abs(b), Abs(x);
    AbsOfProduct(b, x);
    assert ab * ax == ab * (ax - 1) + ab;
    NonNegativeProduct(ab, ax - 1);
  }

  /** The magnitude of a product is the product of the magnitudes. */
  lemma AbsOfProduct(a: int, b: int)
    ensures Abs(a * b) == Abs(a) * Abs(b)
  {
    if a < 0 && b < 0 {
      assert a * b == (-a) * (-b);
      NonNegativeProduct(-a, -b);
    } else if a < 0 {
      assert a * b == -((-a) * b);
      NonNegativeProduct(-a, b);
    } else if b < 0 {
      assert a * b == -(a * (-b));
      NonNegativeProduct(a, -b);
    } else {
      NonNegativeProduct(a, b);
    }
  }

  /** The product of two non-negative numbers is non-negative. */
  lemma NonNegativeProduct(a: int, b: int)
    requires 0 <= a && 0 <= b
    ensures 0 <= a * b
  {
  }

  /** Euclidean division is unique: a remainder in range that leaves a
      multiple of b is the one Dafny's `%` gives. */
  lemma EuclidUnique(a: int, b: int, d: int, m: int)
    requires b != 0 && a == b * d + m && 0 <= m < Abs(b)
    ensures a % b == m
  {
    var d', m' := a / b, a % b;
    assert a == b * d' + m';
    assert b * d - b * d' == m' - m;
    assert b * (d - d') == m' - m;
    if d != d' {
      MultipleAtLeast(b, d - d');
    }
  }

  /** Java's narrowing conversion `(short) x`: keep the low 16 bits and read
      them as two's complement. */
  function ToShort(x: int): int16
  {
    var low := x % 0x1_0000;
    if low < 0x8000 then low as int16 else (low - 0x1_0000) as int16
  }

  /** `(short) x` has the same low 16 bits as x, and is x itself when x
      already fits in a `short`. */
  lemma ToShortLowBits(x: int)
    ensures ToShort(x) as int % 0x1_0000 == x % 0x1_0000
    ensures -0x8000 <= x < 0x8000 ==> ToShort(x) as int == x
  {
    var low := x % 0x1_0000;
    if low < 0x8000 {
      EuclidUnique(low, 0x1_0000, 0, low);
    } else {
      EuclidUnique(low - 0x1_0000, 0x1_0000, -1, low);
    }
    if -0x8000 <= x < 0 {
      EuclidUnique(x, 0x1_0000, -1, x + 0x1_0000);
    } else if 0 <= x < 0x8000 {
      EuclidUnique(x, 0x1_0000, 0, x);
    }
  }

  /** The low 16 bits determine `(short) x`: a `short` with the same low bits
      as x is `(short) x`. */
  lemma ToShortUnique(x: int, s: int16)
    requires s as int % 0x1_0000 == x % 0x1_0000
    ensures s == ToShort(x)
  {
    ToShortLowBits(x);
    var t := ToShort(x);
    var d := s as int - t as int;
    assert d == 0x1_0000 * (s as int / 0x1_0000 - t as int / 0x1_0000);
  }

  /** Java `/` on `int`: the quotient rounded toward zero. */
  function JavaDiv(a: int, b: int): int
    requires b != 0
  {
    var t := Abs(a) / Abs(b);
    if (a < 0) == (b < 0) then t else -t
  }

  /** Java `%` on `int`, defined as the language defines it from `/`:
      `(a / b) * b + a % b == a`. */
  function JavaRem(a: int, b: int): int
    requires b != 0
  {
    a - JavaDiv(a, b) * b
  }

  /** Java's remainder is the remainder of the magnitudes, with the sign of
      the dividend. */
  lemma JavaRemOfMagnitudes(a: int, b: int)
    requires b != 0
    ensures JavaRem(a, b) == if a < 0 then -(Abs(a) % Abs(b)) else Abs(a) % Abs(b)
  {
    var t, m := Abs(a) / Abs(b), Abs(a) % Abs(b);
    assert Abs(a) == Abs(b) * t + m;
    var k := JavaDiv(a, b);
    if (a < 0) == (b < 0) {
      assert k == t;
      assert k * b == (if b < 0 then -(t * Abs(b)) else t * Abs(b));
    } else {
      assert k == -t;
      assert k * b == (if b < 0 then t * Abs(b) else -(t * Abs(b)));
    }
  }

  /** Java's remainder is smaller than the divisor and no larger than the
      dividend in magnitude. */
  lemma JavaRemBounds(a: int, b: int)
    requires b != 0
    ensures Abs(JavaRem(a, b)) < Abs(b) && Abs(JavaRem(a, b)) <= Abs(a)
  {
    JavaRemOfMagnitudes(a, b);
    RemainderAtMostDividend(Abs(a), Abs(b));
  }

  /** A Euclidean remainder of naturals is below the divisor and no larger
      than the dividend: it is the dividend itself when that is smaller. */
  lemma RemainderAtMostDividend(x: nat, y: nat)
    requires y > 0
    ensures x % y < y && x % y <= x
  {
    if x < y {
      EuclidUnique(x, y, 0, x);
    }
  }

  /** Java's remainder is zero or has the sign of the dividend. */
  lemma JavaRemSign(a: int, b: int)
    requires b != 0
    ensures JavaRem(a, b) == 0 || (JavaRem(a, b) < 0 <==> a < 0)
  {
    JavaRemOfMagnitudes(a, b);
  }

  /** Java's remainder differs from the dividend by a multiple of the
      divisor: the quotient times the divisor. */
  lemma JavaRemCongruent(a: int, b: int)
    requires b != 0
    ensures (a - JavaRem(a, b)) % b == 0
  {
    var d := JavaDiv(a, b);
    assert a - JavaRem(a, b) == b * d;
    EuclidUnique(a - JavaRem(a, b), b, d, 0);
  }

  /** Java's remainder is the dividend itself when the dividend is smaller
      than the divisor in magnitude. */
  lemma JavaRemSmallDividend(a: int, b: int)
    requires b != 0 && Abs(a) < Abs(b)
    ensures JavaRem(a, b) == a
  {
    JavaRemOfMagnitudes(a, b);
    EuclidUnique(Abs(a), Abs(b), 0, Abs(a));
  }

  /** Java's remainder is smaller than the divisor and no larger than the
      dividend in magnitude, is zero or has the sign of the dividend, differs
      from the dividend by a multiple of the divisor, and is the dividend
      itself when the dividend is the smaller of the two. */
  lemma JavaRemProperties(a: int, b: int)
    requires b != 0
    ensures Abs(JavaRem(a, b)) < Abs(b) && Abs(JavaRem(a, b)) <= Abs(a)
    ensures JavaRem(a, b) == 0 || (JavaRem(a, b) < 0 <==> a < 0)
    ensures (a - JavaRem(a, b)) % b == 0
    ensures Abs(a) < Abs(b) ==> JavaRem(a, b) == a
  {
    JavaRemBounds(a, b);
    JavaRemSign(a, b);
    JavaRemCongruent(a, b);
    if Abs(a) < Abs(b) {
      JavaRemSmallDividend(a, b);
    }
  }
}
