/** Machine words and bytes. Dafny integers are unbounded, so every place where the
    source relies on a width of 32 or 64 bits goes through one of these functions. */
module Words {

  const TWO31 := 0x8000_0000
  const TWO32 := 0x1_0000_0000
  const TWO63 := 0x8000_0000_0000_0000
  const TWO64 := 0x1_0000_0000_0000_0000

  type Byte = b: int | 0 <= b < 256
  type ByteString = seq<Byte>
  type Uint64 = x: int | 0 <= x < TWO64
  type Int32 = x: int | -TWO31 <= x < TWO31

  /** Two's complement reading of the low 32 bits of `x`. */
  function ToInt32(x: int): (r: Int32)
    ensures (x - r) % TWO32 == 0
  {
    var u := x % TWO32;
    if u < TWO31 then u else u - TWO32
  }

  /** Two's complement reading of the low 64 bits of `x`: the value a signed 64-bit
      addition or conversion leaves behind. */
  function ToInt64(x: int): (r: int)
    ensures -TWO63 <= r < TWO63
    ensures (x - r) % TWO64 == 0
  {
    var u := x % TWO64;
    if u < TWO63 then u else u - TWO64
  }

  lemma ToInt64Small(x: nat)
    requires x < TWO63
    ensures ToInt64(x) == x
  {
  }

  /** Conversion of a signed 32-bit value to an unsigned 64-bit one (sign extension). */
  function SignExtend(x: Int32): (r: Uint64)
    ensures ToInt32(r) == x && (r - x) % TWO64 == 0
  {
    if x < 0 then x + TWO64 else x
  }

  function Min(a: nat, b: nat): (m: nat) {
    if a <= b then a else b
  }

  function Pow2(n: nat): (p: nat)
    ensures p > 0
  {
    if n == 0 then 1 else 2 * Pow2(n - 1)
  }

  /** Bitwise or of two non-negative integers, bit by bit. */
  function BitOr(a: nat, b: nat): (r: nat)
    decreases a + b
  {
    if a == 0 then b
    else if b == 0 then a
    else (if a % 2 == 1 || b % 2 == 1 then 1 else 0) + 2 * BitOr(a / 2, b / 2)
  }

  /** How many values a machine word holds: 2^32 or 2^64. */
  type WordSize = m: int | m == TWO32 || m == TWO64 witness TWO64

  /** What is left of `n` in a word. */
  function Truncate(n: nat, word: WordSize): (r: nat)
    ensures r < word && (n < word ==> r == n)
  {
    if word == TWO32 then n % TWO32 else n % TWO64
  }

  /** Left shift in a word: bits pushed past the top are lost. */
  function Shl(x: nat, shift: nat, word: WordSize): (r: nat)
    ensures r < word
  {
    Truncate(x * Pow2(shift), word)
  }

  /** Number of bits needed to write `x`; zero for zero. */
  function BitLength(x: nat): (n: nat) {
    if x == 0 then 0 else 1 + BitLength(x / 2)
  }

  lemma {:induction false} Pow2Adds(m: nat, n: nat)
    ensures Pow2(m + n) == Pow2(m) * Pow2(n)
  {
    if m != 0 {
      Pow2Adds(m - 1, n);
      assert Pow2(m + n) == 2 * Pow2(m - 1 + n);
    }
  }

  lemma Pow2Double(n: nat, p: nat)
    requires Pow2(n) == p
    ensures Pow2(2 * n) == p * p
  {
    Pow2Adds(n, n);
    assert n + n == 2 * n;
  }

  lemma Pow2Half(n: nat)
    requires n > 0
    ensures Pow2(n) == 2 * Pow2(n - 1)
  {
  }

  lemma Pow2At8()
    ensures Pow2(8) == 0x100
  {
  }

  lemma {:induction false} Pow2Monotone(m: nat, n: nat)
    requires m <= n
    ensures Pow2(m) <= Pow2(n)
  {
    if m < n {
      Pow2Monotone(m, n - 1);
    }
  }

  /** Or-ing a word with one whose set bits all lie above it is addition. */
  lemma {:induction false} OrDisjointIsAdd(a: nat, m: nat, k: nat)
    requires a < Pow2(k)
    ensures BitOr(a, m * Pow2(k)) == a + m * Pow2(k)
    decreases k
  {
    if k != 0 && a != 0 && m != 0 {
      var b := m * Pow2(k);
      var half := m * Pow2(k - 1);
      assert b == 2 * half;
      assert a / 2 < Pow2(k - 1);
      OrDisjointIsAdd(a / 2, m, k - 1);
      assert b / 2 == half && b % 2 == 0;
      assert BitOr(a, b) == a % 2 + 2 * BitOr(a / 2, half);
    }
  }

  /** A number has more than `k` bits exactly if it is at least 2^k. */
  lemma {:induction false} BitLengthAbove(x: nat, k: nat)
    ensures BitLength(x) > k <==> x >= Pow2(k)
    decreases k
  {
    if k > 0 && x > 0 {
      BitLengthAbove(x / 2, k - 1);
    }
  }

  lemma {:induction false} BitLengthPow2(n: nat)
    ensures BitLength(Pow2(n)) == n + 1
  {
    if n > 0 {
      BitLengthPow2(n - 1);
      assert Pow2(n) / 2 == Pow2(n - 1);
    }
  }
}
