/** Converting integers to binary64 without losing anything. */
module NumericCasts {
  import opened BinaryNumbers
  import opened Bytes
  import opened NumericKeys

  // ---- The cast: round to nearest, ties to even (section 4.3.1 of IEEE 754-2019) ----

  function DropBits(n: nat, drop: nat): (r: nat)
    ensures r * Pow2(drop) <= n < r * Pow2(drop) + Pow2(drop)
  {
    ShiftIsDivision(n, drop);
    ShiftRight(n, drop)
  }

  lemma {:induction false} ShiftIsDivision(n: nat, k: nat)
    ensures ShiftRight(n, k) * Pow2(k) <= n < ShiftRight(n, k) * Pow2(k) + Pow2(k)
    decreases k
  {
    if k == 0 {
      assert n * Pow2(0) == n;
    } else {
      ShiftIsDivision(n / 2, k - 1);
      var r := ShiftRight(n / 2, k - 1);
      assert r * Pow2(k) == 2 * (r * Pow2(k - 1));
    }
  }

  /** n over a power of two, rounded. */
  function Rounded(n: nat, drop: nat): nat
    requires drop > 0
  {
    Nearer(DropBits(n, drop), n - DropBits(n, drop) * Pow2(drop), Pow2(drop - 1))
  }

  function Nearer(q: int, rest: int, half: int): (r: int)
    ensures q >= 0 ==> r >= 0
  {
    if rest > half || (rest == half && q % 2 == 1) then q + 1 else q
  }

  function Distance(a: int, b: int): nat { if a < b then b - a else a - b }

  lemma TimesSum(a: nat, b: nat, p: nat)
    ensures (a + b) * p == a * p + b * p
  {
  }

  lemma MultiplesApart(q: nat, m: nat, p: nat)
    ensures m < q ==> m * p + p <= q * p
    ensures m == q + 1 ==> m * p == q * p + p
    ensures m > q + 1 ==> m * p >= q * p + p + p
  {
    if m < q {
      TimesSum(m, 1, p);
      TimesSum(m + 1, q - m - 1, p);
    } else if m > q {
      TimesSum(q, 1, p);
      TimesSum(q + 1, m - q - 1, p);
      if m > q + 1 {
        TimesSum(1, m - q - 2, p);
      }
    }
  }

  /** rp is at least as near to n as mp, and nearer unless r is even or they are one multiple. */
  predicate AsNear(n: int, r: int, rp: int, m: int, mp: int) {
    Distance(n, rp) <= Distance(n, mp) && (Distance(n, rp) == Distance(n, mp) && m != r ==> r % 2 == 0)
  }

  lemma ChoiceIsNearest(n: int, half: int, q: int, qp: int, m: int, mp: int)
    requires qp <= n < qp + half + half
    requires m < q ==> mp + half + half <= qp
    requires m == q ==> mp == qp
    requires m == q + 1 ==> mp == qp + half + half
    requires m > q + 1 ==> mp >= qp + half + half + half + half
    ensures var r := Nearer(q, n - qp, half); AsNear(n, r, if r == q then qp else qp + half + half, m, mp)
  {
  }

  lemma MultipleIsNearest(n: int, q: nat, p: nat, half: int, m: nat)
    requires p == half + half && q * p <= n < q * p + p
    ensures var r := Nearer(q, n - q * p, half); AsNear(n, r, r * p, m, m * p)
  {
    MultiplesApart(q, m, p);
    TimesSum(q, 1, p);
    var qp, mp := q * p, m * p;
    ChoiceIsNearest(n, half, q, qp, m, mp);
    var r := Nearer(q, n - qp, half);
    assert r * p == if r == q then qp else qp + half + half;
  }

  /** No other multiple is nearer, and of two equally near ones the even one is taken. */
  lemma RoundedIsNearest(n: nat, drop: nat, m: nat)
    requires drop > 0
    ensures AsNear(n, Rounded(n, drop), Rounded(n, drop) * Pow2(drop), m, m * Pow2(drop))
  {
    MultipleIsNearest(n, DropBits(n, drop), Pow2(drop), Pow2(drop - 1), m);
  }

  lemma LimitTimesPower(k: nat)
    ensures FRACTION_LIMIT * Pow2(k) == Pow2(k + 52) && 2 * FRACTION_LIMIT * Pow2(k) == Pow2(k + 53)
  {
    WordPowers();
    Pow2Add(53, k);
    Pow2Add(52, k);
  }

  lemma RoundedBounds(n: Bits64)
    requires BitLength(n) > 53
    ensures FRACTION_LIMIT <= Rounded(n, BitLength(n) - 53) <= 2 * FRACTION_LIMIT
  {
    var drop := BitLength(n) - 53;
    var q := DropBits(n, drop);
    BitLengthBounds(n);
    LimitTimesPower(drop);
    QuotientBounds(n, q, Pow2(drop), FRACTION_LIMIT);
  }

  lemma QuotientBounds(n: nat, q: nat, p: nat, low: nat)
    requires p > 0 && low * p <= n < 2 * low * p && q * p <= n < q * p + p
    ensures low <= q < 2 * low
  {
    if q < low {
      assert (q + 1) * p == q * p + p;
      TimesMonotone(q + 1, low, p);
    }
    if q >= 2 * low {
      TimesMonotone(2 * low, q, p);
    }
  }

  lemma LengthAtMost64(n: Bits64)
    ensures BitLength(n) <= 64
  {
    IntegerBits(n);
  }

  /** The 53-bit significand of a short integer. */
  function Widened(n: Bits64): (m: nat)
    requires 0 < n && BitLength(n) <= 53
    ensures FRACTION_LIMIT <= m < 2 * FRACTION_LIMIT && m == n * Pow2(53 - BitLength(n))
  {
    BitLengthShifted(n, 53 - BitLength(n));
    FloatBitsFit(n * Pow2(53 - BitLength(n)));
    n * Pow2(53 - BitLength(n))
  }

  function CastMagnitude(sign: nat, n: Bits64): (bits: Bits64)
    requires sign < 2
    ensures Finite(bits) && SignBit(bits) == sign && (n > 0 ==> ExponentField(bits) > 0)
  {
    LengthAtMost64(n);
    if n == 0 then FloatBits(sign, 0, 0)
    else if BitLength(n) <= 53 then FloatBits(sign, BitLength(n) + 1022, Widened(n) - FRACTION_LIMIT)
    else
      RoundedBounds(n);
      var q := Rounded(n, BitLength(n) - 53);
      if q == 2 * FRACTION_LIMIT then FloatBits(sign, BitLength(n) + 1023, 0)
      else FloatBits(sign, BitLength(n) + 1022, q - FRACTION_LIMIT)
  }

  function CastInt(i: int): Bits64
    requires -0x8000_0000_0000_0000 <= i < 0x1_0000_0000_0000_0000
  {
    CastMagnitude(if i < 0 then 1 else 0, UnsignedAbs(i))
  }

  // ---- Exact conversion ----

  function ExactConversion(converted: Bits64, exact: Key): Result<Bits64> {
    match KeyFromFloat(converted)
    case None => Err
    case Some(key) => if key == exact then Ok(converted) else Err
  }

  function ExactIntToFloat(i: Int64): Result<Bits64> { ExactConversion(CastInt(i), KeyFromInt(i)) }

  function ExactUIntToFloat(u: Bits64): Result<Bits64> { ExactConversion(CastInt(u), KeyFromUInt(u)) }

  lemma ShortCastExact(sign: nat, n: Bits64)
    requires sign < 2 && 0 < n && BitLength(n) <= 53
    ensures FloatMagnitude(CastMagnitude(sign, n)) == n * Pow2(UNIT)
  {
    var e := BitLength(n) + 1022;
    NormalMagnitude(sign, e, Widened(n) - FRACTION_LIMIT);
    Shifted(n, 53 - BitLength(n), e - 1);
  }

  lemma NormalMagnitude(sign: nat, e: nat, f: nat)
    requires sign < 2 && 0 < e < 2047 && f < FRACTION_LIMIT
    ensures FloatMagnitude(FloatBits(sign, e, f)) == (FRACTION_LIMIT + f) * Pow2(e - 1)
  {
  }

  lemma {:induction false} ShiftOutPower(m: nat, k: nat)
    ensures ShiftRight(m * Pow2(k), k) == m
    decreases k
  {
    if k == 0 {
      assert m * Pow2(0) == m;
    } else {
      ShiftOutPower(m, k - 1);
      assert m * Pow2(k) == 2 * (m * Pow2(k - 1));
    }
  }

  lemma NothingDropped(n: Bits64, drop: nat, m: nat)
    requires drop > 0 && n == m * Pow2(drop)
    ensures Rounded(n, drop) == m
  {
    ShiftOutPower(m, drop);
  }

  /** When the odd part fits 53 bits, all the bits the cast drops are zero. */
  lemma DropsZerosOnly(n: Bits64) returns (m: nat)
    requires BitLength(n) > 53 && OddPart(n) < 2 * FRACTION_LIMIT
    ensures n == m * Pow2(BitLength(n) - 53) && m < 2 * FRACTION_LIMIT
  {
    var odd, zeros, drop := OddPart(n), TrailingZeros(n), BitLength(n) - 53;
    OddPartTimes(n);
    BitLengthShifted(odd, zeros);
    FloatBitsFit(odd);
    m := odd * Pow2(zeros - drop);
    Shifted(odd, zeros - drop, drop);
    MovedBelowLimit(odd, zeros - drop);
  }

  lemma MovedBelowLimit(odd: nat, k: nat)
    requires odd > 0 && BitLength(odd) + k <= 53
    ensures odd * Pow2(k) < 2 * FRACTION_LIMIT
  {
    BitLengthShifted(odd, k);
    FloatBitsFit(odd * Pow2(k));
  }

  lemma LongCastExact(sign: nat, n: Bits64)
    requires sign < 2 && BitLength(n) > 53 && OddPart(n) < 2 * FRACTION_LIMIT
    ensures FloatMagnitude(CastMagnitude(sign, n)) == n * Pow2(UNIT)
  {
    var m := DropsZerosOnly(n);
    LengthAtMost64(n);
    RoundedBounds(n);
    NothingDropped(n, BitLength(n) - 53, m);
    Shifted(m, BitLength(n) - 53, UNIT);
  }

  lemma ExactCast(i: int)
    requires -0x8000_0000_0000_0000 <= i < 0x1_0000_0000_0000_0000 && i != 0
    requires OddPart(UnsignedAbs(i)) < 2 * FRACTION_LIMIT
    ensures Units(Float(CastInt(i))) == Some(i * Pow2(UNIT))
  {
    var sign, n := if i < 0 then 1 else 0, UnsignedAbs(i);
    if BitLength(n) <= 53 {
      ShortCastExact(sign, n);
    } else {
      LongCastExact(sign, n);
    }
    SignedTimes(i, Pow2(UNIT));
  }

  /** The conversion succeeds exactly when the odd part of the integer fits 53 bits, and its result
      is the integer. */
  lemma ConversionSucceedsExactly(i: int, key: Key)
    requires -0x8000_0000_0000_0000 <= i < 0x1_0000_0000_0000_0000
    requires key == if i == 0 then ZERO_KEY else Nonzero(if i < 0 then Negative else Positive, UnsignedAbs(i), 0)
    ensures ExactConversion(CastInt(i), key).Ok? <==> i == 0 || OddPart(UnsignedAbs(i)) < 0x20_0000_0000_0000
    ensures ExactConversion(CastInt(i), key).Ok? ==>
              Units(Float(ExactConversion(CastInt(i), key).value)) == Some(i * Pow2(UNIT))
  {
    var bits := CastInt(i);
    IntKeyMeans(key, i);
    FloatKeyMeans(bits);
    SameValueSameKey(key, KeyFromFloat(bits).value);
    if i != 0 && OddPart(UnsignedAbs(i)) < 0x20_0000_0000_0000 {
      ExactCast(i);
    }
  }

  lemma ExactIntToFloatMeans(i: Int64)
    ensures ExactIntToFloat(i).Ok? <==> i == 0 || OddPart(UnsignedAbs(i)) < 0x20_0000_0000_0000
    ensures ExactIntToFloat(i).Ok? ==> Units(Float(ExactIntToFloat(i).value)) == Units(Int(i))
  {
    ConversionSucceedsExactly(i, KeyFromInt(i));
  }

  lemma ExactUIntToFloatMeans(u: Bits64)
    ensures ExactUIntToFloat(u).Ok? <==> u == 0 || OddPart(u) < 0x20_0000_0000_0000
    ensures ExactUIntToFloat(u).Ok? ==> Units(Float(ExactUIntToFloat(u).value)) == Units(UInt(u))
  {
    ConversionSucceedsExactly(u, KeyFromUInt(u));
  }
}
