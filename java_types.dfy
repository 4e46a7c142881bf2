/**
 * Java's fixed-width integers (two's complement, wrap-around on overflow)
 * and the exceptions the SoundBank editor and its streams can throw.
 */
module JavaTypes {

  /** `Integer.MAX_VALUE` */
  const INT_MAX: int := 0x7FFF_FFFF

  /** An unsigned byte, as `InputStream.read()` returns it and as the model stores file content. */
  type byte = x: int | 0 <= x < 0x100

  type i16 = x: int | -0x8000 <= x < 0x8000
  type i32 = x: int | -0x8000_0000 <= x < 0x8000_0000
  type i64 = x: int | -0x8000_0000_0000_0000 <= x < 0x8000_0000_0000_0000

  /** A product with a factor of at least one is at least the other factor. */
  lemma {:induction false} MulAtLeast(m: nat, k: int)
    requires k >= 1
    ensures m * k >= m
    decreases k
  {
    if k > 1 {
      MulAtLeast(m, k - 1);
      assert m * k == m * (k - 1) + m;
    }
  }

  /** Quotient and remainder are the only ones: `x == m * t + v` with `0 <= v < m` fixes both. */
  lemma DivModUnique(x: int, m: int, t: int, v: int)
    requires m > 0 && x == m * t + v && 0 <= v < m
    ensures x / m == t && x % m == v
  {
    var q, r := x / m, x % m;
    assert m * (q - t) == v - r;
    if q - t >= 1 {
      MulAtLeast(m, q - t);
    } else if q - t <= -1 {
      MulAtLeast(m, t - q);
    }
  }

  // The casts below take away or add the width's modulus until the value
  // fits, which is what keeping the low bits and reading them as signed does.

  /** The `(short)` cast: keep the low 16 bits, read them as signed. */
  function ToInt16(x: int): (r: i16)
    ensures -0x8000 <= x < 0x8000 ==> r == x
    decreases if x < 0 then -x else x + 1
  {
    if x < -0x8000 then ToInt16(x + 0x1_0000)
    else if x >= 0x8000 then ToInt16(x - 0x1_0000)
    else x
  }

  /** The `(int)` cast and the result of any overflowing `int` arithmetic. */
  function ToInt32(x: int): (r: i32)
    ensures -0x8000_0000 <= x < 0x8000_0000 ==> r == x
    decreases if x < 0 then -x else x + 1
  {
    if x < -0x8000_0000 then ToInt32(x + 0x1_0000_0000)
    else if x >= 0x8000_0000 then ToInt32(x - 0x1_0000_0000)
    else x
  }

  /** The `(long)` cast and the result of any overflowing `long` arithmetic. */
  function ToInt64(x: int): (r: i64)
    ensures -0x8000_0000_0000_0000 <= x < 0x8000_0000_0000_0000 ==> r == x
    decreases if x < 0 then -x else x + 1
  {
    if x < -0x8000_0000_0000_0000 then ToInt64(x + 0x1_0000_0000_0000_0000)
    else if x >= 0x8000_0000_0000_0000 then ToInt64(x - 0x1_0000_0000_0000_0000)
    else x
  }

  /** A `(short)` cast keeps the value modulo 2^16. */
  lemma {:induction false} Residue16(x: int)
    ensures ToInt16(x) % 0x1_0000 == x % 0x1_0000
    decreases if x < 0 then -x else x + 1
  {
    if x < -0x8000 {
      Residue16(x + 0x1_0000);
      DivModUnique(x + 0x1_0000, 0x1_0000, x / 0x1_0000 + 1, x % 0x1_0000);
    } else if x >= 0x8000 {
      Residue16(x - 0x1_0000);
      DivModUnique(x - 0x1_0000, 0x1_0000, x / 0x1_0000 - 1, x % 0x1_0000);
    }
  }

  /** An `(int)` cast keeps the value modulo 2^32. */
  lemma {:induction false} Residue32(x: int)
    ensures ToInt32(x) % 0x1_0000_0000 == x % 0x1_0000_0000
    decreases if x < 0 then -x else x + 1
  {
    if x < -0x8000_0000 {
      Residue32(x + 0x1_0000_0000);
      DivModUnique(x + 0x1_0000_0000, 0x1_0000_0000, x / 0x1_0000_0000 + 1, x % 0x1_0000_0000);
    } else if x >= 0x8000_0000 {
      Residue32(x - 0x1_0000_0000);
      DivModUnique(x - 0x1_0000_0000, 0x1_0000_0000, x / 0x1_0000_0000 - 1, x % 0x1_0000_0000);
    }
  }

  /** A `(long)` cast keeps the value modulo 2^64. */
  lemma {:induction false} Residue64(x: int)
    ensures ToInt64(x) % 0x1_0000_0000_0000_0000 == x % 0x1_0000_0000_0000_0000
    decreases if x < 0 then -x else x + 1
  {
    if x < -0x8000_0000_0000_0000 {
      Residue64(x + 0x1_0000_0000_0000_0000);
      DivModUnique(x + 0x1_0000_0000_0000_0000, 0x1_0000_0000_0000_0000, x / 0x1_0000_0000_0000_0000 + 1, x % 0x1_0000_0000_0000_0000);
    } else if x >= 0x8000_0000_0000_0000 {
      Residue64(x - 0x1_0000_0000_0000_0000);
      DivModUnique(x - 0x1_0000_0000_0000_0000, 0x1_0000_0000_0000_0000, x / 0x1_0000_0000_0000_0000 - 1, x % 0x1_0000_0000_0000_0000);
    }
  }

  /** Two `short`s with the same residue modulo 2^16 are the same `short`. */
  lemma SameResidue16(a: i16, b: i16)
    requires a % 0x1_0000 == b % 0x1_0000
    ensures a == b
  {
    assert a % 0x1_0000 == if a >= 0 then a else a + 0x1_0000;
    assert b % 0x1_0000 == if b >= 0 then b else b + 0x1_0000;
  }

  /** Two `long`s with the same residue modulo 2^64 are the same `long`. */
  lemma SameResidue64(a: i64, b: i64)
    requires a % 0x1_0000_0000_0000_0000 == b % 0x1_0000_0000_0000_0000
    ensures a == b
  {
    assert a % 0x1_0000_0000_0000_0000 == if a >= 0 then a else a + 0x1_0000_0000_0000_0000;
    assert b % 0x1_0000_0000_0000_0000 == if b >= 0 then b else b + 0x1_0000_0000_0000_0000;
  }

  /** Two `int`s with the same residue modulo 2^32 are the same `int`. */
  lemma SameResidue32(a: i32, b: i32)
    requires a % 0x1_0000_0000 == b % 0x1_0000_0000
    ensures a == b
  {
    assert a % 0x1_0000_0000 == if a >= 0 then a else a + 0x1_0000_0000;
    assert b % 0x1_0000_0000 == if b >= 0 then b else b + 0x1_0000_0000;
  }

  /** Adding to an already wrapped `int` wraps like adding to the exact value. */
  lemma WrapAdd(a: int, b: int)
    ensures ToInt32(ToInt32(a) + b) == ToInt32(a + b)
  {
    Residue32(a);
    Residue32(ToInt32(a) + b);
    Residue32(a + b);
    var w := ToInt32(a);
    var qa, qw, q := a / 0x1_0000_0000, w / 0x1_0000_0000, (w + b) / 0x1_0000_0000;
    assert a + b == 0x1_0000_0000 * (q + qa - qw) + (w + b) % 0x1_0000_0000;
    DivModUnique(a + b, 0x1_0000_0000, q + qa - qw, (w + b) % 0x1_0000_0000);
    SameResidue32(ToInt32(ToInt32(a) + b), ToInt32(a + b));
  }

  /** The sum of a sequence of lengths, accumulated from the front as the source's loops do. */
  function Sum(s: seq<int>): int
  {
    if s == [] then 0 else Sum(s[..|s| - 1]) + s[|s| - 1]
  }

  lemma {:induction false} SumNonNegative(s: seq<int>)
    requires forall k | 0 <= k < |s| :: 0 <= s[k]
    ensures 0 <= Sum(s)
  {
    if s != [] {
      SumNonNegative(s[..|s| - 1]);
    }
  }

  /** Sums of non-negative lengths grow with the prefix they are taken over. */
  lemma {:induction false} SumPrefixMonotone(s: seq<int>, i: nat, j: nat)
    requires i <= j <= |s|
    requires forall k | 0 <= k < |s| :: 0 <= s[k]
    ensures Sum(s[..i]) <= Sum(s[..j])
  {
    if i < j {
      SumPrefixMonotone(s, i, j - 1);
      assert s[..j][..j - 1] == s[..j - 1];
    }
  }

  /** Exceptions the modelled Java code throws, one constructor per cause. */
  datatype Error =
    | TooBig                                      // a file or a read larger than Integer.MAX_VALUE
    | MissingSection(tag: string)                 // the expected chunk tag was not found
    | CorruptIndexLength(didxLength: int)         // DIDX length not divisible by 12
    | CorruptOffsets(entry: int, offset: int, previous: int)  // offsets decrease
    | CorruptData(calculated: int, declared: int) // DATA length below the sum of entry lengths
    | NotThatLong                                 // fewer bytes remain than a read needs
    | AlreadyPassed                               // a target position behind the cursor
    | NegativeArraySize(size: int)                // `new byte[n]` with n < 0
    | IndexOutOfBounds(index: int)                // an array index out of range
    | NullPointer                                 // writing an array that was never set
}
