/** Lock and semaphore names: a base name followed by two decimal digits of
    a counter. Strings are NUL-terminated byte arrays, and the digit
    arithmetic is C's: `/` and `%` truncate toward zero and the sum is
    stored into an 8-bit `char`. */
module Names {

  type Byte = b: int | 0 <= b < 256

  const NUL: Byte := 0

  /** The character code of '0'. */
  const ZERO: Byte := 48

  /** C's `a / 10` on `int`, rounding toward zero. */
  function CDiv10(a: int): int
  {
    if a >= 0 then a / 10 else -((-a) / 10)
  }

  /** C's `a % 10` on `int`, taking the sign of `a`. */
  function CMod10(a: int): int
  {
    a - 10 * CDiv10(a)
  }

  /** Storing an `int` into an 8-bit `char` keeps its low eight bits. */
  function ToChar(x: int): Byte
  {
    x % 256
  }

  predicate IsDigit(c: Byte)
  {
    ZERO <= c < ZERO + 10
  }

  function DigitValue(c: Byte): int
  {
    c - ZERO
  }

  /** Two characters that read back, in decimal, as `count`. */
  predicate DecimalSuffix(tens: Byte, ones: Byte, count: int)
  {
    IsDigit(tens) && IsDigit(ones) && 10 * DigitValue(tens) + DigitValue(ones) == count
  }

  /** For a counter in 0..99 the two characters `get_name` computes are
      decimal digits that read back as the counter. */
  lemma DigitsRoundTrip(count: int)
    requires 0 <= count <= 99
    ensures DecimalSuffix(ToChar(ZERO + CDiv10(count)), ToChar(ZERO + CMod10(count)), count)
  {
    assert CDiv10(count) == count / 10;
    assert 0 <= count / 10 <= 9;
    assert CMod10(count) == count % 10;
  }

  /** `get_name`: the base name up to its terminating NUL, the digits of
      `count / 10` and `count % 10`, and a NUL. `name` is the initialised
      prefix of the buffer and `allocSize` the size requested from the
      allocator. */
  method GetName(mainName: seq<Byte>, count: int) returns (name: seq<Byte>, allocSize: nat)
    requires NUL in mainName
    ensures 3 <= |name| < |mainName| + 3 && allocSize >= |name|
    ensures name[..|name| - 3] == mainName[..|name| - 3]
    ensures NUL !in name[..|name| - 3] && mainName[|name| - 3] == NUL
    ensures name[|name| - 1] == NUL
    ensures 0 <= count <= 99 ==> DecimalSuffix(name[|name| - 3], name[|name| - 2], count)
  {
    var len := 0;
    while mainName[len] != NUL
      invariant 0 <= len < |mainName|
      invariant NUL !in mainName[..len]
      invariant NUL in mainName[len..]
      decreases |mainName| - len
    {
      assert mainName[..len + 1] == mainName[..len] + [mainName[len]];
      assert mainName[len + 1..] == mainName[len..][1..];
      len := len + 1;
    }
    allocSize := len * 4 + 12;
    name := [];
    var i := 0;
    while i < len
      invariant 0 <= i <= len
      invariant name == mainName[..i]
    {
      name := name + [mainName[i]];
      i := i + 1;
    }
    var tens, ones := ToChar(ZERO + CDiv10(count)), ToChar(ZERO + CMod10(count));
    if 0 <= count <= 99 {
      DigitsRoundTrip(count);
    }
    name := name + [tens, ones, NUL];
    assert name[..len] == mainName[..len];
  }
}
