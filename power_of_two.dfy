/** `nextPowerOf2` of texture.cpp: rounding a u32 up to a power of two by
    bit smearing, with the source's 32-bit wrap-around and its s32 result. */
module PowerOfTwo {
  import opened Bits

  const U32_MODULUS: nat := 0x1_0000_0000
  type u32 = x: int | 0 <= x < 0x1_0000_0000

  /** n is 2^k for some k. */
  predicate IsPowerOf2(n: int)
    decreases if n < 0 then 0 else n
  {
    n == 1 || (n > 1 && n % 2 == 0 && IsPowerOf2(n / 2))
  }

  /** Reference definition: the smallest power of two that is at least x. */
  function CeilPow2(x: nat): nat
  {
    if x <= 1 then 1 else 2 * CeilPow2((x + 1) / 2)
  }

  /** u32 `x--`: 0 wraps round to 2^32 - 1. */
  function WrapDec(x: u32): (r: u32)
    ensures (r + 1) % U32_MODULUS == x
  {
    if x == 0 then 0xFFFF_FFFF else x - 1
  }

  /** u32 `x++`: 2^32 - 1 wraps round to 0. */
  function WrapInc(x: u32): (r: u32)
    ensures r == (x + 1) % U32_MODULUS
  {
    if x == 0xFFFF_FFFF then 0 else x + 1
  }

  /** The value of a u32 bit pattern read back as an s32 (two's complement). */
  function ToS32(v: u32): (r: int)
    ensures -0x8000_0000 <= r < 0x8000_0000
  {
    if v < 0x8000_0000 then v else v - U32_MODULUS
  }

  /** Reading back as s32 keeps the bit pattern: it is a bijection onto
      [-2^31, 2^31) that agrees with v modulo 2^32. */
  lemma ToS32Bits(v: u32, w: u32)
    ensures ToS32(v) % U32_MODULUS == v
    ensures ToS32(v) == ToS32(w) ==> v == w
  {
  }

  lemma {:induction false} Pow2IsPowerOf2(k: nat)
    ensures IsPowerOf2(Pow2(k))
  {
    if k > 0 {
      Pow2IsPowerOf2(k - 1);
    }
  }

  /** Two different powers of two are at least a factor of two apart. */
  lemma {:induction false} PowerOf2Gap(p: int, q: int)
    requires IsPowerOf2(p) && IsPowerOf2(q) && p < q
    ensures 2 * p <= q
    decreases p + q
  {
    var h := q / 2;
    if p < h {
      PowerOf2Gap(p, h);
    } else if h < p {
      if h >= 1 {
        PowerOf2Gap(h, p);
      }
    }
  }

  /** There is only one power of two in [x, 2x). */
  lemma PowerOf2Unique(x: nat, p: int, q: int)
    requires IsPowerOf2(p) && x <= p < 2 * x
    requires IsPowerOf2(q) && x <= q < 2 * x
    ensures p == q
  {
    if p < q {
      PowerOf2Gap(p, q);
    } else if q < p {
      PowerOf2Gap(q, p);
    }
  }

  /** CeilPow2(x) is a power of two, at least x, and below 2x: the smallest one. */
  lemma {:induction false} CeilPow2Spec(x: nat)
    ensures IsPowerOf2(CeilPow2(x)) && x <= CeilPow2(x)
    ensures x >= 1 ==> CeilPow2(x) < 2 * x
  {
    if x > 1 {
      var c := CeilPow2((x + 1) / 2);
      CeilPow2Spec((x + 1) / 2);
    }
  }

  /** Every power of two that is at least x is at least CeilPow2(x). */
  lemma CeilPow2Least(x: nat, p: int)
    requires IsPowerOf2(p) && x <= p
    ensures CeilPow2(x) <= p
  {
    CeilPow2Spec(x);
    if p < CeilPow2(x) {
      PowerOf2Gap(p, CeilPow2(x));
      if x >= 1 {
        assert false;
      }
    }
  }

  /** Sample values of the rounding: 3 goes to 4, 129 to 256, powers of two stay. */
  lemma CeilPow2Samples()
    ensures CeilPow2(1) == 1 && CeilPow2(2) == 2 && CeilPow2(3) == 4 && CeilPow2(4) == 4
    ensures CeilPow2(5) == 8 && CeilPow2(8) == 8 && CeilPow2(9) == 16 && CeilPow2(16) == 16
    ensures CeilPow2(17) == 32 && CeilPow2(100) == 128 && CeilPow2(128) == 128 && CeilPow2(129) == 256
  {
    assert CeilPow2(65) == 128;
    assert CeilPow2(50) == 64;
  }

  /** The top bit of a non-zero y is worth 2^(BitLength(y) - 1). */
  lemma {:induction false} BitLengthFloor(y: nat)
    requires y >= 1
    ensures Pow2(BitLength(y) - 1) <= y
  {
    var h := y / 2;
    if h >= 1 {
      BitLengthFloor(h);
      var n := BitLength(h);
      assert BitLength(y) == n + 1;
      assert Pow2(n) == 2 * Pow2(n - 1);
    }
  }

  /** A number of len bits whose top bit is set rounds up to 2^len. */
  lemma RoundsUp(x0: nat, len: nat)
    requires x0 >= 1 && x0 - 1 <= Ones(len)
    requires len >= 1 ==> x0 - 1 >= Pow2(len - 1)
    ensures x0 <= Pow2(len) < 2 * x0
  {
    OnesPow2(len);
  }

  /** 2^BitLength(y) lies in [y + 1, 2 * (y + 1)). */
  lemma BitLengthRoundsUp(y: nat, len: nat)
    requires len == BitLength(y)
    ensures y + 1 <= Pow2(len) < 2 * (y + 1)
  {
    BitLengthRange(y);
    if y >= 1 {
      BitLengthFloor(y);
    }
    RoundsUp(y + 1, len);
  }

  /** For y < 2^31, 2^BitLength(y) is the smallest power of two at least y + 1. */
  lemma RoundUpBySmear(y: nat, len: nat)
    requires y < 0x8000_0000 && len == BitLength(y)
    ensures len <= 31
    ensures Pow2(len) == CeilPow2(y + 1)
  {
    assert len <= 31 by {
      Pow2Values();
      OnesPow2(31);
      BitLengthBound(y, 31);
    }
    BitLengthRoundsUp(y, len);
    Pow2IsPowerOf2(len);
    CeilPow2Spec(y + 1);
    PowerOf2Unique(y + 1, Pow2(len), CeilPow2(y + 1));
  }

  /** Above 2^30 the rounding reaches 2^31. */
  lemma CeilPow2Above30(x0: nat)
    requires 0x4000_0000 < x0 <= 0x8000_0000
    ensures CeilPow2(x0) == 0x8000_0000
  {
    CeilPow2Spec(x0);
    Pow2IsPowerOf2(31);
    Pow2Values();
    CeilPow2Least(x0, Pow2(31));
    if CeilPow2(x0) < 0x8000_0000 {
      PowerOf2Gap(CeilPow2(x0), Pow2(31));
    }
  }

  /** Smearing x0 - 1 (as u32) fills its significant bits. */
  lemma SmearedPredecessor(y: u32)
    ensures BitLength(y) <= 32 && Smear(y, 1) == Ones(BitLength(y))
  {
    TopOnesInit(y);
    Ones32();
    BitLengthBound(y, 32);
    SmearToOnes(y, BitLength(y), Min(1, BitLength(y)), 1);
  }

  /** For 1 <= x0 <= 2^31 the smeared x0 - 1 plus one is CeilPow2(x0). */
  lemma SmearedRoundsUp(x0: nat, y: nat, len: nat)
    requires 1 <= x0 <= 0x8000_0000 && y == x0 - 1 && len == BitLength(y)
    ensures Ones(len) + 1 == CeilPow2(x0)
  {
    RoundUpBySmear(y, len);
    OnesPow2(len);
  }

  /** What x++ and the s32 return make of the smeared x0 - 1. */
  lemma SmearedResult(x0: u32, y: u32, len: nat)
    requires y == WrapDec(x0) && len == BitLength(y)
    ensures Ones(len) < U32_MODULUS
    ensures 1 <= x0 <= 0x4000_0000 ==> ToS32(WrapInc(Ones(len))) == CeilPow2(x0)
    ensures 0x4000_0000 < x0 <= 0x8000_0000 ==> ToS32(WrapInc(Ones(len))) == -0x8000_0000
    ensures x0 == 0 || x0 > 0x8000_0000 ==> ToS32(WrapInc(Ones(len))) == 0
  {
    assert len <= 32 && Ones(len) < U32_MODULUS by {
      Ones32();
      BitLengthBound(y, 32);
      OnesMono(len, 32);
    }
    if 1 <= x0 <= 0x8000_0000 {
      var c := CeilPow2(x0);
      assert Ones(len) + 1 == c by {
        SmearedRoundsUp(x0, y, len);
      }
      assert if x0 <= 0x4000_0000 then c < 0x8000_0000 else c == 0x8000_0000 by {
        if 0x4000_0000 < x0 {
          CeilPow2Above30(x0);
        } else {
          CeilPow2Spec(x0);
        }
      }
    } else {
      assert Ones(len) == 0xFFFF_FFFF by {
        WrapsToZero(x0, y, len);
      }
    }
  }

  /** x0 == 0 and x0 > 2^31 smear to all 32 bits, which x++ wraps to 0. */
  lemma WrapsToZero(x0: u32, y: u32, len: nat)
    requires x0 == 0 || x0 > 0x8000_0000
    requires y == WrapDec(x0) && len == BitLength(y)
    ensures Ones(len) == 0xFFFF_FFFF
  {
    assert len <= 32 by {
      Ones32();
      BitLengthBound(y, 32);
    }
    assert len >= 32 by {
      BitLengthRange(y);
      if len < 32 {
        OnesMono(len, 31);
        OnesPow2(31);
        Pow2Values();
      }
    }
    Ones32();
  }

  /** One `x |= x >> k` step stays within u32 and continues the smear. */
  lemma SmearU32(x: u32, k: nat)
    requires 1 <= k < 32
    ensures Or(x, Shr(x, k)) < U32_MODULUS
    ensures Smear(x, k) == Smear(Or(x, Shr(x, k)), 2 * k)
    ensures 2 * k >= 32 ==> Smear(x, k) == Or(x, Shr(x, k))
  {
    Ones32();
    OrBound(x, Shr(x, k), 32);
  }

  /** texture.cpp's nextPowerOf2: x--, five `x |= x >> k` smearing steps and
      x++, all on u32, the result returned as s32. */
  method NextPowerOf2(x0: u32) returns (r: int)
    ensures 1 <= x0 <= 0x4000_0000 ==> IsPowerOf2(r) && x0 <= r < 2 * x0
    ensures 1 <= x0 <= 0x4000_0000 ==> r == CeilPow2(x0)
    ensures 0x4000_0000 < x0 <= 0x8000_0000 ==> r == -0x8000_0000
    ensures x0 == 0 || x0 > 0x8000_0000 ==> r == 0
  {
    var x := WrapDec(x0);
    ghost var y := x;
    SmearU32(x, 1);
    x := Or(x, Shr(x, 1));
    SmearU32(x, 2);
    x := Or(x, Shr(x, 2));
    SmearU32(x, 4);
    x := Or(x, Shr(x, 4));
    SmearU32(x, 8);
    x := Or(x, Shr(x, 8));
    SmearU32(x, 16);
    x := Or(x, Shr(x, 16));
    SmearedPredecessor(y);
    SmearedResult(x0, y, BitLength(y));
    x := WrapInc(x);
    r := ToS32(x);
    CeilPow2Spec(x0);
  }
}
