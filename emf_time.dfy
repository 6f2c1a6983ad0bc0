/**
 * The 8-bit mantissa/exponent time code of section 18.3 of RFC 3626, as the
 * AIMF header uses it for Vtime and Htime: a code e holds a = e >> 4 in its
 * high nibble and b = e & 0xf in its low nibble, and stands for the interval
 * C * (1 + a/16) * 2^b seconds with C = 1/16 s.
 *
 * Seconds are exact reals here. Codes are ordered by their rank 16*b + a,
 * which is the order of the values they stand for; the reference encoder
 * SmallestCode is "the lowest-ranked code whose value is at least t", and
 * SecondsToEmf, the source's logarithm-and-ceiling loop, is proved to
 * compute it.
 */
module EmfTime {
  import opened AimfTypes

  /** AIMF_C: the unit of the encoding, 1/16 s. */
  const C: real := 0.0625

  /** The value of the largest code 0xf f: C * (1 + 15/16) * 2^15 seconds. */
  const MAX_SECONDS: real := 3968.0

  function Pow2(n: nat): (p: nat)
    ensures p >= 1
  {
    if n == 0 then 1 else 2 * Pow2(n - 1)
  }

  /** a = e >> 4 */
  function Mantissa(e: Byte): nat { e / 16 }

  /** b = e & 0xf */
  function Exponent(e: Byte): nat { e % 16 }

  /** EmfToSeconds: the interval a code stands for. */
  function EmfToSeconds(e: Byte): real
  {
    C * (1.0 + Mantissa(e) as real / 16.0) * Pow2(Exponent(e)) as real
  }

  /** The rank of a code: its position when codes are ordered by (b, a). */
  function Rank(e: Byte): (r: nat)
    ensures r < 256
  {
    16 * Exponent(e) + Mantissa(e)
  }

  /** The code of a given rank: a = r % 16, b = r / 16, packed as (a << 4) | b. */
  function CodeOfRank(r: nat): (e: Byte)
    requires r < 256
  {
    16 * (r % 16) + r / 16
  }

  /** CodeOfRank is the inverse of Rank: the code of rank r has rank r. */
  lemma RankOfCodeOfRank(r: nat)
    requires r < 256
    ensures Rank(CodeOfRank(r)) == r
  {
    DivMod16(r / 16, r % 16);
  }

  lemma CodeOfRankOfCode(e: Byte)
    ensures CodeOfRank(Rank(e)) == e
  {
    DivMod16(Mantissa(e), Exponent(e));
    assert 16 * (e / 16) + e % 16 == e;
  }

  /**
   * The value of the code of rank r = 16 b + a in units of 1/256 s,
   * (16 + a) * 2^b: each step of 16 ranks doubles it.
   */
  function RankUnits(r: nat): nat
    requires r < 256
  {
    if r < 16 then 16 + r else 2 * RankUnits(r - 16)
  }

  /** The value of the code of rank r, in seconds. */
  function RankSeconds(r: nat): real
    requires r < 256
  {
    RankUnits(r) as real / 256.0
  }

  lemma DivMod16(a: nat, b: nat)
    requires a < 16
    ensures (16 * b + a) / 16 == b && (16 * b + a) % 16 == a
  {
  }

  lemma {:induction false} RankUnitsOf(a: nat, b: nat)
    requires a < 16 && b < 16
    ensures RankUnits(16 * b + a) == (16 + a) * Pow2(b)
  {
    if b > 0 {
      var r := 16 * b + a;
      RankUnitsOf(a, b - 1);
      assert r - 16 == 16 * (b - 1) + a;
      assert RankUnits(r) == 2 * RankUnits(r - 16);
      var p := Pow2(b - 1);
      assert Pow2(b) == 2 * p;
      MulTwice(16 + a, p);
    }
  }

  lemma MulTwice(x: nat, p: nat)
    ensures x * (2 * p) == 2 * (x * p)
  {
  }

  lemma EmfToSecondsByRank(e: Byte)
    ensures EmfToSeconds(e) == RankSeconds(Rank(e))
  {
    var a, b := Mantissa(e), Exponent(e);
    var pn := Pow2(b);
    assert Rank(e) == 16 * b + a;
    RankSecondsOf(a, b);
    UnitsAsSeconds(a, pn);
  }

  lemma RankSecondsOf(a: nat, b: nat)
    requires a < 16 && b < 16
    ensures RankSeconds(16 * b + a) == ((16 + a) * Pow2(b)) as real / 256.0
  {
    RankUnitsOf(a, b);
  }

  /** C (1 + a/16) p seconds are (16 + a) p units of 1/256 s. */
  lemma UnitsAsSeconds(a: nat, p: nat)
    ensures C * (1.0 + a as real / 16.0) * p as real == ((16 + a) * p) as real / 256.0
  {
    assert ((16 + a) * p) as real == (16 + a) as real * p as real;
  }

  lemma Pow2Double(n: nat)
    ensures Pow2(n + 1) == 2 * Pow2(n)
  {
  }

  /** Going up one rank strictly increases the value, across the a = 15 -> (0, b+1) step too. */
  lemma RankUnitsStep(r: nat)
    requires r < 255
    ensures RankUnits(r) < RankUnits(r + 1)
  {
    var a, b := r % 16, r / 16;
    var p := Pow2(b);
    RankUnitsOf(a, b);
    if a == 15 {
      Pow2Double(b);
      assert r + 1 == 16 * (b + 1) + 0;
      RankUnitsOf(0, b + 1);
    } else {
      assert r + 1 == 16 * b + (a + 1);
      RankUnitsOf(a + 1, b);
      MulLess(16 + a, 17 + a, p);
    }
  }

  lemma MulLess(x: nat, y: nat, p: nat)
    requires x < y && p >= 1
    ensures x * p < y * p
  {
  }

  /** Codes are totally ordered by rank: a higher rank always stands for a longer interval. */
  lemma {:induction false} RankUnitsIncreasing(r: nat, s: nat)
    requires r < s < 256
    ensures RankUnits(r) < RankUnits(s)
  {
    RankUnitsStep(s - 1);
    if r < s - 1 {
      RankUnitsIncreasing(r, s - 1);
    }
  }

  lemma RankUnitsMonotone(r: nat, s: nat)
    requires r <= s < 256
    ensures RankUnits(r) <= RankUnits(s)
  {
    if r < s {
      RankUnitsIncreasing(r, s);
    }
  }

  lemma RankSecondsBounds(r: nat)
    requires r < 256
    ensures RankSeconds(0) == C
    ensures RankSeconds(255) == MAX_SECONDS
    ensures C <= RankSeconds(r) <= MAX_SECONDS
  {
    Pow2Limits();
    RankUnitsOf(0, 0);
    RankUnitsOf(15, 15);
    RankUnitsMonotone(0, r);
    RankUnitsMonotone(r, 255);
  }

  /** The first rank from r upwards whose value is at least t: a linear search over the codes. */
  function LeastRankFrom(t: real, r: nat): (k: nat)
    requires r < 256 && t <= MAX_SECONDS
    ensures r <= k < 256
    decreases 256 - r
  {
    if r == 255 || t <= RankSeconds(r) then r else LeastRankFrom(t, r + 1)
  }

  /** The search ends at a rank that covers t: rank 255 covers every t up to MAX_SECONDS. */
  lemma {:induction false} LeastRankFromCovers(t: real, r: nat)
    requires r < 256 && t <= MAX_SECONDS
    ensures t <= RankSeconds(LeastRankFrom(t, r))
    decreases 256 - r
  {
    if r == 255 {
      RankSecondsBounds(r);
    } else if !(t <= RankSeconds(r)) {
      LeastRankFromCovers(t, r + 1);
    }
  }

  /** No rank the search passes over covers t. */
  lemma {:induction false} LeastRankFromIsLeast(t: real, r: nat, j: nat)
    requires r < 256 && t <= MAX_SECONDS
    requires r <= j < LeastRankFrom(t, r)
    ensures RankSeconds(j) < t
    decreases 256 - r
  {
    if j > r {
      LeastRankFromIsLeast(t, r + 1, j);
    }
  }

  /** The rank of code 0x00, where the search for the smallest covering code starts. */
  const LOWEST_RANK: nat := 0

  /**
   * Reference encoder: the lowest-ranked code whose value is at least t,
   * that is, t rounded up to the next representable interval.
   */
  function SmallestCode(t: real): (e: Byte)
    requires t <= MAX_SECONDS
  {
    CodeOfRank(LeastRankFrom(t, LOWEST_RANK))
  }

  /** A rank that covers t while the rank below it does not is the one SmallestCode finds. */
  lemma LeastRankUnique(t: real, r: nat)
    requires t <= MAX_SECONDS && r < 256
    requires t <= RankSeconds(r)
    requires r == 0 || RankSeconds(r - 1) < t
    ensures LeastRankFrom(t, LOWEST_RANK) == r
  {
    var k := LeastRankFrom(t, LOWEST_RANK);
    LeastRankFromCovers(t, LOWEST_RANK);
    if k < r {
      RankUnitsMonotone(k, r - 1);
    } else if r < k {
      LeastRankFromIsLeast(t, LOWEST_RANK, r);
    }
  }

  lemma RankOfSmallestCode(t: real)
    requires t <= MAX_SECONDS
    ensures Rank(SmallestCode(t)) == LeastRankFrom(t, LOWEST_RANK)
  {
    RankOfCodeOfRank(LeastRankFrom(t, LOWEST_RANK));
  }

  /** Decoding the encoding of t never gives less than t. */
  lemma SmallestCodeCovers(t: real)
    requires t <= MAX_SECONDS
    ensures EmfToSeconds(SmallestCode(t)) >= t
  {
    RankOfSmallestCode(t);
    LeastRankFromCovers(t, LOWEST_RANK);
    EmfToSecondsByRank(SmallestCode(t));
  }

  /** No code that covers t stands for less than SmallestCode(t). */
  lemma SmallestCodeMinimal(t: real, e: Byte)
    requires t <= MAX_SECONDS
    ensures EmfToSeconds(e) >= t ==> EmfToSeconds(e) >= EmfToSeconds(SmallestCode(t))
  {
    var k := LeastRankFrom(t, LOWEST_RANK);
    RankOfSmallestCode(t);
    EmfToSecondsByRank(SmallestCode(t));
    EmfToSecondsByRank(e);
    if Rank(e) >= k {
      RankUnitsMonotone(k, Rank(e));
    } else {
      LeastRankFromIsLeast(t, LOWEST_RANK, Rank(e));
    }
  }

  lemma SmallestCodeMonotone(t1: real, t2: real)
    requires t1 <= t2 <= MAX_SECONDS
    ensures Rank(SmallestCode(t1)) <= Rank(SmallestCode(t2))
    ensures EmfToSeconds(SmallestCode(t1)) <= EmfToSeconds(SmallestCode(t2))
  {
    var k1, k2 := LeastRankFrom(t1, LOWEST_RANK), LeastRankFrom(t2, LOWEST_RANK);
    RankOfSmallestCode(t1);
    RankOfSmallestCode(t2);
    if k2 < k1 {
      LeastRankFromCovers(t2, LOWEST_RANK);
      LeastRankFromIsLeast(t1, LOWEST_RANK, k2);
    }
    RankUnitsMonotone(k1, k2);
    EmfToSecondsByRank(SmallestCode(t1));
    EmfToSecondsByRank(SmallestCode(t2));
  }

  /** Every code is reproduced exactly by encoding the interval it stands for. */
  lemma SmallestCodeOfDecoded(e: Byte)
    ensures EmfToSeconds(e) <= MAX_SECONDS
    ensures SmallestCode(EmfToSeconds(e)) == e
  {
    var r := Rank(e);
    EmfToSecondsByRank(e);
    RankSecondsBounds(r);
    if r > 0 {
      RankUnitsIncreasing(r - 1, r);
    }
    LeastRankUnique(EmfToSeconds(e), r);
    CodeOfRankOfCode(e);
  }

  /** Every code stands for an interval between C and MAX_SECONDS. */
  lemma EmfToSecondsBounds(e: Byte)
    ensures C <= EmfToSeconds(e) <= MAX_SECONDS
  {
    EmfToSecondsByRank(e);
    RankSecondsBounds(Rank(e));
  }

  /** std::ceil */
  function Ceil(x: real): (n: int)
    ensures x <= n as real < x + 1.0
  {
    -((-x).Floor)
  }

  /** With 2^b <= t/C < 2^(b+1), tmp = 16 (t / (C 2^b) - 1) lies in [0, 16) and (16 + tmp) 2^b = 256 t. */
  lemma MantissaRange(t: real, p: real, tmp: real)
    requires p >= 1.0 && p <= t / C < 2.0 * p
    requires tmp == MantissaEstimate(t, p)
    ensures 0.0 <= tmp < 16.0
    ensures (16.0 + tmp) * p == 256.0 * t
  {
    var q := t / (C * p);
    assert q * (C * p) == t;
    assert q * p == t / C;
    assert 1.0 <= q < 2.0;
  }

  /** 16 * (t / (C * 2^b) - 1), before rounding. */
  function MantissaEstimate(t: real, p: real): real
    requires p >= 1.0
  {
    16.0 * (t / (C * p) - 1.0)
  }

  lemma Pow2Limits()
    ensures Pow2(15) == 32768 && Pow2(16) == 65536
  {
    assert Pow2(4) == 16;
    assert Pow2(8) == 256;
    assert Pow2(12) == 4096;
  }

  lemma ScaleLe(x: real, y: real, p: real)
    requires x <= y && p >= 0.0
    ensures x * p <= y * p
  {
  }

  lemma ScaleLt(x: real, y: real, p: real)
    requires x < y && p > 0.0
    ensures x * p < y * p
  {
  }

  /** 256 t as a real against the integer units of a rank. */
  lemma CoversByUnits(t: real, r: nat, u: nat)
    requires r < 256 && RankUnits(r) == u
    ensures t <= RankSeconds(r) <==> 256.0 * t <= u as real
  {
  }

  lemma RealOfProduct(x: nat, y: nat)
    ensures (x * y) as real == x as real * y as real
  {
  }

  /** Rounding up: (16 + a) 2^b units cover t. */
  lemma CeilingAbove(t: real, tmp: real, a: nat, p: nat)
    requires tmp <= a as real && (16.0 + tmp) * p as real == 256.0 * t
    ensures 256.0 * t <= ((16 + a) * p) as real
  {
    var y, pr, hi := 16.0 + tmp, p as real, (16 + a) as real;
    ScaleLe(y, hi, pr);
    RealOfProduct(16 + a, p);
  }

  /** Rounding up by less than one: (15 + a) 2^b units fall short of t. */
  lemma CeilingBelow(t: real, tmp: real, a: nat, p: nat)
    requires a as real < tmp + 1.0 && (16.0 + tmp) * p as real == 256.0 * t && p >= 1
    ensures ((15 + a) * p) as real < 256.0 * t
  {
    var y, pr, lo := 16.0 + tmp, p as real, (15 + a) as real;
    assert lo < y;
    ScaleLt(lo, y, pr);
    RealOfProduct(15 + a, p);
  }

  /** t is at least 2^b: 16 2^b units do not exceed 256 t. */
  lemma CeilingFloor(t: real, tmp: real, p: nat)
    requires 0.0 <= tmp && (16.0 + tmp) * p as real == 256.0 * t
    ensures (16 * p) as real <= 256.0 * t
  {
    ScaleLe(16.0, 16.0 + tmp, p as real);
  }

  /** Without rollover, the code (a, b) with a = Ceil(tmp) is the one SmallestCode finds. */
  lemma CeilingWithoutRollover(t: real, b: nat, p: nat, tmp: real, a: nat)
    requires t <= MAX_SECONDS && b < 16 && a < 16 && p == Pow2(b)
    requires 0.0 <= tmp && (16.0 + tmp) * p as real == 256.0 * t
    requires tmp <= a as real < tmp + 1.0
    ensures LeastRankFrom(t, LOWEST_RANK) == 16 * b + a
  {
    CeilingAbove(t, tmp, a, p);
    RankCovers(t, a, b);
    if 16 * b + a > 0 {
      RankBelowCeilingFallsShort(t, b, p, tmp, a);
    }
    LeastRankUnique(t, 16 * b + a);
  }

  /** The rank just below the ceiling code (a, b) falls short of t. */
  lemma RankBelowCeilingFallsShort(t: real, b: nat, p: nat, tmp: real, a: nat)
    requires b < 16 && a < 16 && 16 * b + a > 0 && p == Pow2(b)
    requires 0.0 <= tmp && (16.0 + tmp) * p as real == 256.0 * t
    requires a as real < tmp + 1.0
    ensures RankSeconds(16 * b + a - 1) < t
  {
    if a > 0 {
      CeilingBelow(t, tmp, a, p);
      RankFallsShort(t, a - 1, b);
    } else {
      CeilingFloor(t, tmp, p);
      var q := Pow2(b - 1);
      Pow2Double(b - 1);
      assert (31 * q) as real < (16 * p) as real;
      RankFallsShort(t, 15, b - 1);
    }
  }

  /** The code (a, b) covers t when its (16 + a) 2^b units reach 256 t. */
  lemma RankCovers(t: real, a: nat, b: nat)
    requires a < 16 && b < 16 && 256.0 * t <= ((16 + a) * Pow2(b)) as real
    ensures t <= RankSeconds(16 * b + a)
  {
    RankUnitsOf(a, b);
  }

  /** The code (a, b) falls short of t when its (16 + a) 2^b units stay below 256 t. */
  lemma RankFallsShort(t: real, a: nat, b: nat)
    requires a < 16 && b < 16 && ((16 + a) * Pow2(b)) as real < 256.0 * t
    ensures RankSeconds(16 * b + a) < t
  {
    RankUnitsOf(a, b);
  }

  lemma RolloverArith(t: real, tmp: real, p: nat)
    requires 15.0 < tmp < 16.0 && (16.0 + tmp) * p as real == 256.0 * t && p >= 1
    ensures (31 * p) as real < 256.0 * t <= (32 * p) as real
  {
    ScaleLt(31.0, 16.0 + tmp, p as real);
    ScaleLe(16.0 + tmp, 32.0, p as real);
  }

  lemma BelowLargestCode(t: real, p: nat)
    requires t <= MAX_SECONDS && (31 * p) as real < 256.0 * t
    ensures p < 32768
  {
  }

  /** With rollover, b + 1 stays below 16: the largest code is 3968 s = 31 * 2^15 / 256 s. */
  lemma RolloverExponent(t: real, b: nat, p: nat, tmp: real)
    requires t <= MAX_SECONDS && b < 16 && p == Pow2(b)
    requires 15.0 < tmp < 16.0 && (16.0 + tmp) * p as real == 256.0 * t
    ensures b < 15
  {
    Pow2Limits();
    RolloverArith(t, tmp, p);
    BelowLargestCode(t, p);
  }

  /** With rollover (a = 16), the code (0, b + 1) is the one SmallestCode finds, and b + 1 stays below 16. */
  lemma CeilingWithRollover(t: real, b: nat, p: nat, tmp: real)
    requires t <= MAX_SECONDS && b < 16 && p == Pow2(b)
    requires 15.0 < tmp < 16.0 && (16.0 + tmp) * p as real == 256.0 * t
    ensures b < 15 && LeastRankFrom(t, LOWEST_RANK) == 16 * (b + 1)
  {
    RolloverExponent(t, b, p, tmp);
    RolloverArith(t, tmp, p);
    Pow2Double(b);
    var r := 16 * (b + 1);
    var below := r - 1;
    RankUnitsOf(0, b + 1);
    RankUnitsOf(15, b);
    assert RankUnits(r) == 32 * p;
    assert RankUnits(below) == 31 * p;
    CoversByUnits(t, r, 32 * p);
    CoversByUnits(t, below, 31 * p);
    LeastRankUnique(t, r);
  }

  /** The code of the least covering rank 16 b + a packs a in the high nibble and b in the low one. */
  lemma SmallestCodeOfRank(t: real, a: nat, b: nat)
    requires t <= MAX_SECONDS && a < 16 && b < 16
    requires LeastRankFrom(t, LOWEST_RANK) == 16 * b + a
    ensures SmallestCode(t) == a * 16 + b
  {
    DivMod16(a, b);
  }

  /** The rounded mantissa, after the roll-over of 16 to (0, b + 1), gives the least covering rank. */
  lemma RoundingStep(t: real, b: nat, p: nat, tmp: real, a: int)
    requires t <= MAX_SECONDS && b < 16 && p == Pow2(b)
    requires 0.0 <= tmp < 16.0 && (16.0 + tmp) * p as real == 256.0 * t
    requires tmp <= a as real < tmp + 1.0
    ensures 0 <= a <= 16
    ensures a < 16 ==> SmallestCode(t) == a * 16 + b
    ensures a == 16 ==> b < 15 && SmallestCode(t) == 0 * 16 + (b + 1)
  {
    if a < 16 {
      CeilingWithoutRollover(t, b, p, tmp, a);
      SmallestCodeOfRank(t, a, b);
    } else {
      CeilingWithRollover(t, b, p, tmp);
      SmallestCodeOfRank(t, 0, b + 1);
    }
  }

  /**
   * SecondsToEmf: find b with 2^b <= t/C < 2^(b+1), round 16*(t/(C*2^b) - 1)
   * up to a, roll a = 16 over to (0, b+1), and pack (a << 4) | b. The
   * source asserts that t/C >= 1 and that a and b end within 0..15, which
   * is the case exactly when C <= t <= MAX_SECONDS.
   */
  method SecondsToEmf(t: real) returns (e: Byte)
    requires C <= t <= MAX_SECONDS
    ensures e == SmallestCode(t)
  {
    var b, p, tmp := ScaledMantissa(t);
    var a := Ceil(tmp);
    RoundingStep(t, b, p, tmp, a);
    if a == 16 {
      b := b + 1;
      a := 0;
    }
    e := a * 16 + b;
  }

  /** The first half of SecondsToEmf: the exponent b and tmp = 16 (t / (C 2^b) - 1). */
  method ScaledMantissa(t: real) returns (b: nat, p: nat, tmp: real)
    requires C <= t <= MAX_SECONDS
    ensures b < 16 && p == Pow2(b)
    ensures 0.0 <= tmp < 16.0 && (16.0 + tmp) * p as real == 256.0 * t
  {
    b := ExponentOf(t);
    p := Pow2(b);
    var pr := p as real;
    assert 1.0 <= pr <= t / C < 2.0 * pr;
    tmp := MantissaEstimate(t, pr);
    MantissaRange(t, pr, tmp);
  }

  /** The exponent loop of SecondsToEmf: the largest b with 2^b <= t/C. */
  method ExponentOf(t: real) returns (b: nat)
    requires C <= t <= MAX_SECONDS
    ensures b < 16
    ensures Pow2(b) as real <= t / C < 2.0 * Pow2(b) as real
  {
    Pow2Limits();
    b := 0;
    while t / C >= Pow2(b) as real
      invariant b <= 16
      invariant b == 0 || t / C >= Pow2(b - 1) as real
      decreases 16 - b
    {
      if b == 16 {
        assert false;
      }
      b := b + 1;
    }
    b := b - 1;
    Pow2Double(b);
  }
}
