/** Unsigned 32-bit words and the bitwise operators the address-space code
    applies to them (`&` and `~`), defined on natural numbers so that their
    relation to `/` and `%` can be proved. */
module Bits {

  /** 2^32: one more than the largest `vaddr_t` / `size_t` value on the target. */
  const WORD: nat := 0x1_0000_0000

  /** An unsigned 32-bit machine word. */
  type Word = x: nat | x < WORD

  /** Unsigned 32-bit addition and subtraction wrap modulo 2^32. */
  function Wrap(x: int): (r: Word)
  {
    x % WORD
  }

  function Pow2(k: nat): (r: nat)
    ensures r >= 1
  {
    if k == 0 then 1 else 2 * Pow2(k - 1)
  }

  /** The number whose low `k` bits are set and all others clear. */
  function Ones(k: nat): nat
  {
    Pow2(k) - 1
  }

  /** Bitwise AND of two naturals, one bit at a time from the least significant. */
  function BitAnd(a: nat, b: nat): nat
  {
    if a == 0 then 0 else 2 * BitAnd(a / 2, b / 2) + (a % 2) * (b % 2)
  }

  /** Bitwise complement within a 32-bit word. */
  function Not32(m: Word): (r: Word)
  {
    WORD - 1 - m
  }

  lemma {:induction false} Pow2Add(j: nat, k: nat)
    ensures Pow2(j + k) == Pow2(j) * Pow2(k)
  {
    if k != 0 {
      Pow2Add(j, k - 1);
    }
  }

  lemma Pow2Is32()
    ensures Pow2(32) == WORD
  {
    assert Pow2(4) == 16;
    Pow2Add(4, 4);
    Pow2Add(8, 8);
    Pow2Add(16, 16);
  }

  lemma Pow2Word(k: nat)
    requires k <= 32
    ensures Pow2(k) <= WORD
  {
    Pow2Is32();
    Pow2Monotone(k, 32);
  }

  lemma {:induction false} Pow2Monotone(j: nat, k: nat)
    requires j <= k
    ensures Pow2(j) <= Pow2(k)
  {
    if j < k {
      Pow2Monotone(j, k - 1);
    }
  }

  lemma {:induction false} BitAndZero(a: nat)
    ensures BitAnd(a, 0) == 0
  {
    if a != 0 {
      BitAndZero(a / 2);
    }
  }

  /** A dividend written as `q * d + r` with `0 <= r < d` has quotient `q` and remainder `r`. */
  lemma DivModUnique(x: int, d: int, q: int, r: int)
    requires 0 <= r < d
    requires x == q * d + r
    ensures x / d == q && x % d == r
  {
    var q' := x / d;
    var r' := x % d;
    assert (q' - q) * d == r - r' by {
      assert q' * d + r' == q * d + r;
    }
    if q' > q {
      MulAtLeast(q' - q, d);
    } else if q' < q {
      MulAtLeast(q - q', d);
    }
  }

  lemma MulAtLeast(k: int, d: int)
    requires k >= 1 && d >= 1
    ensures k * d >= d
  {
  }

  /** Subtracting the remainder leaves a multiple of the divisor. */
  lemma RoundDownMultiple(x: nat, p: nat)
    requires p >= 1
    ensures (x - x % p) % p == 0
  {
    assert x == (x / p) * p + x % p;
    DivModUnique(x - x % p, p, x / p, 0);
  }

  /** Halving relates the remainder modulo `2m` to the remainder modulo `m`. */
  lemma ModDouble(x: nat, m: nat)
    requires m >= 1
    ensures x % (2 * m) == 2 * ((x / 2) % m) + x % 2
  {
    var h := x / 2;
    assert x == 2 * h + x % 2;
    assert h == (h / m) * m + h % m;
    assert x == (h / m) * (2 * m) + (2 * (h % m) + x % 2);
    DivModUnique(x, 2 * m, h / m, 2 * (h % m) + x % 2);
  }

  /** Masking with the low `k` bits keeps the remainder modulo 2^k. */
  lemma {:induction false} BitAndOnes(x: nat, k: nat)
    ensures BitAnd(x, Ones(k)) == x % Pow2(k)
  {
    if k == 0 {
      BitAndZero(x);
    } else if x != 0 {
      assert Ones(k) / 2 == Ones(k - 1) && Ones(k) % 2 == 1;
      BitAndOnes(x / 2, k - 1);
      ModDouble(x, Pow2(k - 1));
    }
  }

  /** Within `w` bits, `x & ~m` and `x & m` split `x` into two disjoint parts. */
  lemma {:induction false} BitAndComplement(x: nat, m: nat, w: nat)
    requires x < Pow2(w) && m < Pow2(w)
    ensures BitAnd(x, Ones(w) - m) + BitAnd(x, m) == x
  {
    if x != 0 {
      assert w > 0;
      var c := Ones(w) - m;
      assert Pow2(w) == 2 * Pow2(w - 1);
      assert c == 2 * (Ones(w - 1) - m / 2) + (1 - m % 2);
      assert c / 2 == Ones(w - 1) - m / 2 && c % 2 == 1 - m % 2;
      BitAndComplement(x / 2, m / 2, w - 1);
      assert BitAnd(x, c) == 2 * BitAnd(x / 2, c / 2) + (x % 2) * (c % 2);
      assert BitAnd(x, m) == 2 * BitAnd(x / 2, m / 2) + (x % 2) * (m % 2);
      assert (x % 2) * (c % 2) + (x % 2) * (m % 2) == x % 2 by {
        if m % 2 == 0 {
          assert c % 2 == 1;
        } else {
          assert c % 2 == 0;
        }
      }
    }
  }

  /** Clearing the low `k` bits of a word rounds it down to a multiple of 2^k. */
  lemma AndNotOnes(x: Word, k: nat)
    requires k <= 32
    ensures Ones(k) < WORD
    ensures BitAnd(x, Not32(Ones(k))) == x - x % Pow2(k)
  {
    Pow2Word(k);
    Pow2Is32();
    BitAndComplement(x, Ones(k), 32);
    BitAndOnes(x, k);
  }
}
