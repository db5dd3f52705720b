/** Unsigned-integer bit operations of the decoder, stated on unbounded naturals:
    `a | b` is Or and `a >> k` is Shr.  The lemmas carry the bit-smearing proof
    used by PowerOfTwo.NextPowerOf2; every definition and proof here is linear
    arithmetic (halving, doubling), so that no step needs the solver's
    nonlinear reasoning. */
module Bits {

  /** 2 to the power k. */
  function Pow2(k: nat): (p: nat)
    ensures p >= 1
  {
    if k == 0 then 1 else 2 * Pow2(k - 1)
  }

  /** The number made of k one-bits, 2^k - 1. */
  function Ones(k: nat): nat
  {
    if k == 0 then 0 else 2 * Ones(k - 1) + 1
  }

  /** Logical right shift `a >> k`. */
  function Shr(a: nat, k: nat): (r: nat)
    ensures r <= a
  {
    if k == 0 then a else Shr(a / 2, k - 1)
  }

  /** Bit k of v (bit 0 is the least significant): the test `v & (1 << k)`. */
  function HasBit(v: nat, k: nat): bool
  {
    Shr(v, k) % 2 == 1
  }

  /** Bitwise or `a | b`, one bit at a time from the least significant. */
  function Or(a: nat, b: nat): nat
    decreases a + b
  {
    if a == 0 then b
    else if b == 0 then a
    else 2 * Or(a / 2, b / 2) + (if a % 2 == 1 || b % 2 == 1 then 1 else 0)
  }

  /** The number whose bits are those of hi followed by the low k bits of lo
      (hi * 2^k + lo % 2^k, written without a product). */
  function Cat(hi: nat, k: nat, lo: nat): nat
  {
    if k == 0 then hi else 2 * Cat(hi, k - 1, lo / 2) + lo % 2
  }

  /** Number of significant bits of y (0 for y == 0). */
  function BitLength(y: nat): nat
  {
    if y == 0 then 0 else 1 + BitLength(y / 2)
  }

  /** Shifting right by 3 or by 5 divides by 8 or by 32. */
  lemma ShrConstant(a: nat)
    ensures Shr(a, 3) == a / 8 && Shr(a, 5) == a / 32
  {
    var a1, a2, a3, a4, a5 := a / 2, a / 4, a / 8, a / 16, a / 32;
    assert a1 / 2 == a2 && a2 / 2 == a3 && a3 / 2 == a4 && a4 / 2 == a5;
    assert Shr(a, 3) == Shr(a1, 2) == Shr(a2, 1) == Shr(a3, 0);
    assert Shr(a, 5) == Shr(a1, 4) == Shr(a2, 3) == Shr(a3, 2) == Shr(a4, 1) == Shr(a5, 0);
  }

  lemma {:induction false} OnesPow2(k: nat)
    ensures Ones(k) + 1 == Pow2(k)
  {
    if k > 0 {
      OnesPow2(k - 1);
    }
  }

  lemma {:induction false} OnesMono(a: nat, b: nat)
    requires a <= b
    ensures Ones(a) <= Ones(b)
  {
    if a < b {
      OnesMono(a, b - 1);
    }
  }

  /** The constants of u32 arithmetic. */
  lemma Pow2Values()
    ensures Pow2(7) == 0x80 && Pow2(30) == 0x4000_0000
    ensures Pow2(31) == 0x8000_0000 && Pow2(32) == 0x1_0000_0000
  {
    assert Pow2(4) == 0x10;
    assert Pow2(8) == 0x100;
    assert Pow2(12) == 0x1000;
    assert Pow2(16) == 0x1_0000;
    assert Pow2(20) == 0x10_0000;
    assert Pow2(24) == 0x100_0000;
    assert Pow2(28) == 0x1000_0000;
  }

  lemma Ones32()
    ensures Ones(32) == 0xFFFF_FFFF
  {
    Pow2Values();
    OnesPow2(32);
  }

  /** Or and one halving commute; this holds also when an operand is 0. */
  lemma OrUnfold(a: nat, b: nat)
    ensures Or(a, b) == 2 * Or(a / 2, b / 2) + (if a % 2 == 1 || b % 2 == 1 then 1 else 0)
  {
  }

  lemma {:induction false} OrComm(a: nat, b: nat)
    ensures Or(a, b) == Or(b, a)
    decreases a + b
  {
    if a != 0 && b != 0 {
      OrComm(a / 2, b / 2);
    }
  }

  /** Or of two n-bit numbers is an n-bit number. */
  lemma {:induction false} OrBound(a: nat, b: nat, n: nat)
    requires a <= Ones(n) && b <= Ones(n)
    ensures Or(a, b) <= Ones(n)
  {
    OrUnfold(a, b);
    if n > 0 {
      OrBound(a / 2, b / 2, n - 1);
    }
  }

  /** Shifting right distributes over Or. */
  lemma {:induction false} OrShr(a: nat, b: nat, j: nat)
    ensures Shr(Or(a, b), j) == Or(Shr(a, j), Shr(b, j))
  {
    if j > 0 {
      OrUnfold(a, b);
      OrShr(a / 2, b / 2, j - 1);
    }
  }

  lemma {:induction false} ShrShr(a: nat, i: nat, j: nat)
    ensures Shr(Shr(a, i), j) == Shr(a, i + j)
  {
    if i > 0 {
      ShrShr(a / 2, i - 1, j);
    }
  }

  /** Shifting an n-bit number right by k leaves an (n-k)-bit number. */
  lemma {:induction false} ShrBound(a: nat, n: nat, k: nat)
    requires a <= Ones(n) && k <= n
    ensures Shr(a, k) <= Ones(n - k)
  {
    if k > 0 {
      ShrBound(a / 2, n - 1, k - 1);
    }
  }

  /** A number whose shift by k is non-zero is at least 2^k. */
  lemma {:induction false} ShrPositive(a: nat, k: nat)
    requires Shr(a, k) >= 1
    ensures a >= Pow2(k)
  {
    if k > 0 {
      ShrPositive(a / 2, k - 1);
    }
  }

  /** A number of at least 2^k keeps a non-zero shift by k. */
  lemma {:induction false} ShrAtLeast(a: nat, k: nat)
    requires a >= Pow2(k)
    ensures Shr(a, k) >= 1
  {
    if k > 0 {
      ShrAtLeast(a / 2, k - 1);
    }
  }

  /** Shifting a run of m one-bits right by j leaves m - j one-bits. */
  lemma {:induction false} ShrOnes(m: nat, j: nat)
    requires j <= m
    ensures Shr(Ones(m), j) == Ones(m - j)
  {
    if j > 0 {
      ShrOnes(m - 1, j - 1);
    }
  }

  /** Or with m low one-bits keeps the bits above m and sets the low m bits. */
  lemma {:induction false} OrLowOnes(a: nat, m: nat)
    ensures Or(a, Ones(m)) == Cat(Shr(a, m), m, Ones(m))
  {
    if m > 0 {
      OrUnfold(a, Ones(m));
      OrLowOnes(a / 2, m - 1);
    }
  }

  /** A run of a one-bits followed by a run of b one-bits is a run of a + b. */
  lemma {:induction false} OnesAppend(a: nat, b: nat)
    ensures Cat(Ones(a), b, Ones(b)) == Ones(a + b)
  {
    if b > 0 {
      OnesAppend(a, b - 1);
    }
  }

  lemma {:induction false} BitLengthBound(y: nat, n: nat)
    requires y <= Ones(n)
    ensures BitLength(y) <= n
  {
    if y > 0 {
      BitLengthBound(y / 2, n - 1);
    }
  }

  /** y has BitLength(y) significant bits, the top one set. */
  lemma {:induction false} BitLengthRange(y: nat)
    ensures y <= Ones(BitLength(y))
    ensures y > 0 ==> Shr(y, BitLength(y) - 1) == 1
  {
    if y > 0 {
      BitLengthRange(y / 2);
    }
  }

  /** The top m of the len significant bits of s are all one. */
  ghost predicate TopOnes(s: nat, len: nat, m: nat)
  {
    m <= len && s <= Ones(len) && Shr(s, len - m) == Ones(m)
  }

  function Min(a: nat, b: nat): nat
  {
    if a <= b then a else b
  }

  /** The top bit of a non-zero y is a run of one one-bit. */
  lemma TopOnesInit(y: nat)
    ensures TopOnes(y, BitLength(y), Min(1, BitLength(y)))
  {
    BitLengthRange(y);
  }

  /** One smearing step `s |= s >> k`: a top run of m one-bits grows to m + k
      (capped at the bit length) when the shift equals the run length. */
  lemma SmearStep(s: nat, len: nat, m: nat, k: nat)
    requires TopOnes(s, len, m) && k >= 1
    requires m == len || m == k
    ensures TopOnes(Or(s, Shr(s, k)), len, Min(m + k, len))
  {
    if m == len {
      SmearFull(s, len, k);
    } else if m + k <= len {
      SmearDouble(s, len, m);
    } else {
      SmearFill(s, len, m);
    }
  }

  lemma SmearFull(s: nat, len: nat, k: nat)
    requires TopOnes(s, len, len)
    ensures TopOnes(Or(s, Shr(s, k)), len, len)
  {
    var t := Shr(s, k);
    assert s == Ones(len);
    OrBound(s, t, len);
    ShrBound(t, len, len);
    OrComm(s, t);
    OrLowOnes(t, len);
    OnesAppend(0, len);
  }

  lemma SmearDouble(s: nat, len: nat, m: nat)
    requires TopOnes(s, len, m) && 1 <= m && 2 * m <= len
    ensures TopOnes(Or(s, Shr(s, m)), len, 2 * m)
  {
    var d := len - 2 * m;
    var t := Shr(s, m);
    OrBound(s, t, len);
    OrShr(s, t, d);
    DoubleShifts(s, len, m);
    DoubleOnes(Shr(s, d), m);
  }

  /** Under TopOnes(s, len, m), both s >> m and s shifted to its top 2m bits
      have their top m bits set. */
  lemma DoubleShifts(s: nat, len: nat, m: nat)
    requires TopOnes(s, len, m) && 2 * m <= len
    ensures Shr(Shr(s, m), len - 2 * m) == Ones(m)
    ensures Shr(Shr(s, len - 2 * m), m) == Ones(m)
  {
    ShrShr(s, m, len - 2 * m);
    ShrShr(s, len - 2 * m, m);
  }

  lemma DoubleOnes(a: nat, m: nat)
    requires Shr(a, m) == Ones(m)
    ensures Or(a, Ones(m)) == Ones(2 * m)
  {
    OrLowOnes(a, m);
    OnesAppend(m, m);
  }

  lemma SmearFill(s: nat, len: nat, m: nat)
    requires TopOnes(s, len, m) && m < len < 2 * m
    ensures TopOnes(Or(s, Shr(s, m)), len, len)
  {
    var d := len - m;
    var t := Shr(s, m);
    assert Or(s, t) <= Ones(len) by {
      OrBound(s, t, len);
    }
    assert t == Ones(d) by {
      ShrShr(s, d, m - d);
      ShrOnes(m, m - d);
    }
    assert Or(s, t) == Ones(len) by {
      OrLowOnes(s, d);
      OnesAppend(m, d);
    }
  }

  /** The smearing `s |= s >> k` for k = k, 2k, 4k, ... below 32. */
  ghost function Smear(s: nat, k: nat): nat
    requires k >= 1
    decreases 32 - k
  {
    if k >= 32 then s else Smear(Or(s, Shr(s, k)), 2 * k)
  }

  /** Smearing a number of bit length len from its top run of one-bits fills
      all len bits. */
  lemma {:induction false} SmearToOnes(s: nat, len: nat, m: nat, k: nat)
    requires len <= 32 && TopOnes(s, len, m) && k >= 1
    requires m == len || m == k
    ensures Smear(s, k) == Ones(len)
    decreases 32 - k
  {
    if k < 32 {
      SmearStep(s, len, m, k);
      SmearToOnes(Or(s, Shr(s, k)), len, Min(m + k, len), 2 * k);
    }
  }
}
