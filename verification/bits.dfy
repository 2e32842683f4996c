/** The C integer operators the decoders use, on natural numbers: `&`, `|`,
    `~` and `>>` defined bit by bit, `<<` and wrapping `+` by their arithmetic
    effect on a 16-bit word, with lemmas giving the closed forms of the
    bitwise ones. */
module Bits {

  /** A byte as read from the bus (`unsigned char`, `uint8_t`). */
  type Byte = x: nat | x < 0x100

  /** Width of C's `unsigned int` on the 8-bit AVR boards the library targets. */
  const UintBits: nat := 16

  /** 2^UintBits, the number of `unsigned int` values (Pow2Constants proves
      the two agree). */
  const UintRange: nat := 0x1_0000

  /** A value of C's `unsigned int`. */
  type Uint = x: nat | x < UintRange

  /** 2^n */
  function Pow2(n: nat): (r: nat)
    ensures r >= 1
  {
    if n == 0 then 1 else 2 * Pow2(n - 1)
  }

  lemma Pow2Constants()
    ensures Pow2(4) == 16 && Pow2(5) == 32 && Pow2(8) == 0x100
    ensures Pow2(11) == 0x800 && Pow2(UintBits) == UintRange
  {
    assert Pow2(4) == 16;
    assert Pow2(8) == 0x100;
    assert Pow2(11) == 0x800;
  }

  /** `a & b`: bit i of the result is set iff bit i is set in both. */
  function And(a: nat, b: nat): (r: nat)
    ensures r <= a && r <= b
    decreases a
  {
    if a == 0 || b == 0 then 0
    else 2 * And(a / 2, b / 2) + (if a % 2 == 1 && b % 2 == 1 then 1 else 0)
  }

  /** `a | b`: bit i of the result is set iff bit i is set in either. */
  function Or(a: nat, b: nat): (r: nat)
    ensures a <= r && b <= r && r <= a + b
    decreases a + b
  {
    if a == 0 then b
    else if b == 0 then a
    else 2 * Or(a / 2, b / 2) + (if a % 2 == 1 || b % 2 == 1 then 1 else 0)
  }

  /** `~a` on an unsigned integer of `width` bits. */
  function Not(a: nat, width: nat): (r: nat)
    ensures r < Pow2(width)
  {
    if width == 0 then 0 else 2 * Not(a / 2, width - 1) + (1 - a % 2)
  }

  /** `a >> k` on an unsigned integer: drop the k lowest bits. */
  function Shr(a: nat, k: nat): (r: nat)
    ensures r <= a
  {
    if k == 0 then a else Shr(a / 2, k - 1)
  }

  /** `a << k` on a byte promoted to a 16-bit `int`, as the 16-bit pattern of
      the result: bits moved past bit 15 are lost, and a result of 2^15 or more
      is the two's-complement wrap GCC produces. Assigning the result to an
      `unsigned int` keeps that pattern. */
  function Shl(a: nat, k: nat): (r: Uint)
    ensures a * Pow2(k) < UintRange ==> r == a * Pow2(k)
  {
    a * Pow2(k) % UintRange
  }

  /** `a + b` on `unsigned int`: wraps around at 2^16. */
  function AddUint(a: nat, b: nat): (r: Uint)
    ensures a + b < UintRange ==> r == a + b
    ensures UintRange <= a + b < 2 * UintRange ==> r == a + b - UintRange
  {
    (a + b) % UintRange
  }

  /** `(~e + 1) & 0x1F` on `unsigned int`: two's-complement negation kept to
      five bits. It depends only on the low five bits of e, and is their
      negation modulo 32. */
  function Negate5(e: Uint): (r: nat)
    ensures r == (32 - e % 32) % 32
  {
    var s := AddUint(Not(e, UintBits), 1);
    NotPlusOne(e);
    AndLow5(s);
    NegationLow5(e, s);
    And(s, 0x1F)
  }

  lemma MulAtLeast(x: int, d: int)
    requires x >= 1 && d > 0
    ensures x * d >= d
  {
    assert x * d == (x - 1) * d + d;
  }

  /** Quotient and remainder are the only pair with a == q * d + r and 0 <= r < d. */
  lemma DivModUnique(a: int, d: int, q: int, r: int)
    requires d > 0 && 0 <= r < d && a == q * d + r
    ensures a / d == q && a % d == r
  {
    var q0 := a / d;
    var r0 := a % d;
    assert a == q0 * d + r0;
    if q > q0 {
      assert (q - q0) * d == r0 - r;
      MulAtLeast(q - q0, d);
    } else if q < q0 {
      assert (q0 - q) * d == r - r0;
      MulAtLeast(q0 - q, d);
    }
  }

  /** Dividing by 2q is halving, then dividing by q; the remainder modulo 2q is
      the lowest bit below the remainder of a / 2 modulo q. */
  lemma DivModOfHalf(a: nat, q: nat)
    requires q >= 1
    ensures a / (2 * q) == (a / 2) / q
    ensures a % (2 * q) == 2 * ((a / 2) % q) + a % 2
  {
    var h := a / 2;
    var r := 2 * (h % q) + a % 2;
    assert h == (h / q) * q + h % q;
    assert 2 * ((h / q) * q) == (h / q) * (2 * q);
    DivModUnique(a, 2 * q, h / q, r);
  }

  /** Shifting right by k divides by 2^k. */
  lemma {:induction false} ShrIsDiv(a: nat, k: nat)
    ensures Shr(a, k) == a / Pow2(k)
    decreases k
  {
    if k > 0 {
      ShrIsDiv(a / 2, k - 1);
      assert Pow2(k) == 2 * Pow2(k - 1);
      DivModOfHalf(a, Pow2(k - 1));
    }
  }

  /** Masking with k one-bits keeps the value modulo 2^k (`x & 0x7FF`, `x & 0x1F`). */
  lemma {:induction false} AndLowMask(a: nat, k: nat)
    ensures And(a, Pow2(k) - 1) == a % Pow2(k)
    decreases k
  {
    if k == 0 {
    } else if a == 0 {
      DivModUnique(0, Pow2(k), 0, 0);
    } else {
      var q := Pow2(k - 1);
      var m := Pow2(k) - 1;
      assert m == 2 * (q - 1) + 1;
      assert m / 2 == q - 1 && m % 2 == 1;
      assert And(a, m) == 2 * And(a / 2, q - 1) + a % 2;
      AndLowMask(a / 2, k - 1);
      DivModOfHalf(a, q);
      assert And(a, m) == a % (2 * q);
    }
  }

  /** `~a` on `width` bits is the complement 2^width - 1 - a. */
  lemma {:induction false} NotComplement(a: nat, width: nat)
    requires a < Pow2(width)
    ensures Not(a, width) == Pow2(width) - 1 - a
    decreases width
  {
    if width > 0 {
      NotComplement(a / 2, width - 1);
    }
  }

  /** `hi << k | lo` with `lo` below 2^k puts the two side by side: hi * 2^k + lo. */
  lemma {:induction false} OrDisjoint(hi: nat, lo: nat, k: nat)
    requires lo < Pow2(k)
    ensures Or(hi * Pow2(k), lo) == hi * Pow2(k) + lo
    decreases k
  {
    if k == 0 || hi == 0 || lo == 0 {
    } else {
      var a := hi * Pow2(k);
      assert a == 2 * (hi * Pow2(k - 1));
      OrDisjoint(hi, lo / 2, k - 1);
    }
  }

  /** `x & 0x1F` is x mod 32. */
  lemma AndLow5(x: nat)
    ensures And(x, 0x1F) == x % 32
  {
    Pow2Constants();
    AndLowMask(x, 5);
  }

  /** Adding one to the complement 0xFFFF - e wraps to the negation 2^16 - e.
      The complement is a parameter rather than the term `Not(e, UintBits)`:
      with that term in the goal the solver keeps unfolding `Not` and runs out
      of resource. */
  lemma ComplementPlusOne(e: Uint, n: nat)
    requires n == 0xFFFF - e
    ensures AddUint(n, 1) == if e == 0 then 0 else UintRange - e
  {
  }

  /** `~e + 1` on `unsigned int` is the two's-complement negation 2^16 - e,
      wrapping to 0 for e = 0. */
  lemma NotPlusOne(e: Uint)
    ensures AddUint(Not(e, UintBits), 1) == if e == 0 then 0 else UintRange - e
  {
    Pow2Constants();
    NotComplement(e, UintBits);
    ComplementPlusOne(e, Not(e, UintBits));
  }

  /** The negation 2^16 - e, read modulo 32, negates e's low five bits. Like
      ComplementPlusOne, it takes the negation as a parameter so that the
      solver works on plain arithmetic, not on the bitwise terms. */
  lemma NegationLow5(e: Uint, s: nat)
    requires s == if e == 0 then 0 else UintRange - e
    ensures s % 32 == (32 - e % 32) % 32
  {
  }
}
