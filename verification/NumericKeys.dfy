/** The canonical key of a numeric property value, and its order. */
module NumericKeys {
  import opened BinaryNumbers
  import opened Bytes

  type Bits64 = x: nat | x < 0x1_0000_0000_0000_0000
  type Int64 = x: int | -0x8000_0000_0000_0000 <= x < 0x8000_0000_0000_0000

  datatype PropValue =
    | Null
    | Bool(b: bool)
    | Int(i: Int64)
    | UInt(u: Bits64)
    | Float(bits: Bits64)
    | Text(text: string)
    | Blob(data: Data)
    | Array(items: seq<PropValue>)
    | Dict(entries: map<string, PropValue>)

  datatype Sign = Negative | Zero | Positive

  const TOP_BIT: nat := 0x8000_0000_0000_0000_0000_0000_0000_0000

  type Bits128 = x: nat | x < 2 * TOP_BIT

  datatype Key = Key(sign: Sign, exponent: int, significand: Bits128)

  datatype Ordering = Less | Equal | Greater

  // ---- Binary64 fields, section 3.4 of IEEE 754-2019 ----

  const FRACTION_LIMIT := 0x10_0000_0000_0000

  function SignBit(bits: Bits64): nat { bits / 0x8000_0000_0000_0000 }

  function ExponentField(bits: Bits64): (e: nat)
    ensures e < 2048
  {
    bits / FRACTION_LIMIT % 2048
  }

  function FractionField(bits: Bits64): nat { bits % FRACTION_LIMIT }

  predicate Finite(bits: Bits64) { ExponentField(bits) != 2047 }

  /** The bit pattern with these three fields. */
  function FloatBits(sign: nat, exponent: nat, fraction: nat): (bits: Bits64)
    requires sign < 2 && exponent < 2048 && fraction < FRACTION_LIMIT
    ensures SignBit(bits) == sign && ExponentField(bits) == exponent && FractionField(bits) == fraction
  {
    (sign * 2048 + exponent) * FRACTION_LIMIT + fraction
  }

  // ---- What a value means ----

  /** Every finite value is a whole number of units, a unit being 2 to the power -1074. */
  const UNIT: int := 1074

  function FloatMagnitude(bits: Bits64): nat
    requires Finite(bits)
  {
    if ExponentField(bits) == 0 then FractionField(bits)
    else (FRACTION_LIMIT + FractionField(bits)) * Pow2(ExponentField(bits) - 1)
  }

  function Signed(negative: bool, magnitude: nat): int {
    if negative then -(magnitude as int) else magnitude
  }

  /** The exact numeric value in units; nothing for a value that is not a finite number. */
  function Units(v: PropValue): Option<int> {
    match v
    case Int(i) => Some(i * Pow2(UNIT))
    case UInt(u) => Some(u * Pow2(UNIT))
    case Float(bits) =>
      if !Finite(bits) then None
      else Some(Signed(SignBit(bits) != 0, FloatMagnitude(bits)))
    case _ => None
  }

  // ---- Keys ----

  const ZERO_KEY := Key(Zero, 0, 0)

  function Nonzero(sign: Sign, significand: Bits128, exponent: int): Key
    requires significand > 0
  {
    Key(sign, exponent + TrailingZeros(significand), OddPart(significand))
  }

  function UnsignedAbs(i: int): nat { if i < 0 then -i else i }

  function KeyFromInt(i: Int64): Key {
    if i == 0 then ZERO_KEY
    else Nonzero(if i < 0 then Negative else Positive, UnsignedAbs(i), 0)
  }

  function KeyFromUInt(u: Bits64): Key {
    if u == 0 then ZERO_KEY else Nonzero(Positive, u, 0)
  }

  function KeyFromFloat(bits: Bits64): Option<Key> {
    if !Finite(bits) then None
    else if ExponentField(bits) == 0 && FractionField(bits) == 0 then Some(ZERO_KEY)
    else
      var sign := if SignBit(bits) == 0 then Positive else Negative;
      var e := ExponentField(bits);
      var significand := if e == 0 then FractionField(bits) else FRACTION_LIMIT + FractionField(bits);
      var exponent := if e == 0 then 1 - 1023 - 52 else e - 1023 - 52;
      if significand == 0 then Some(ZERO_KEY) else Some(Nonzero(sign, significand, exponent))
  }

  function NumericKey(v: PropValue): Option<Key> {
    match v
    case Int(i) => Some(KeyFromInt(i))
    case UInt(u) => Some(KeyFromUInt(u))
    case Float(bits) => KeyFromFloat(bits)
    case _ => None
  }

  /** The shape of every key made from a value: an odd significand of at most 64 bits, or zero. */
  predicate Canonical(k: Key) {
    if k.sign == Zero then k == ZERO_KEY
    else k.exponent >= -UNIT && k.significand % 2 == 1 && k.significand < 0x1_0000_0000_0000_0000
  }

  function KeyMagnitude(k: Key): nat
    requires k.exponent >= -UNIT
  {
    k.significand * Pow2(k.exponent + UNIT)
  }

  function KeyUnits(k: Key): int
    requires k.exponent >= -UNIT
  {
    match k.sign
    case Zero => 0
    case _ => Signed(k.sign == Negative, KeyMagnitude(k))
  }

  lemma NonzeroMeans(sign: Sign, significand: nat, exponent: int)
    requires 0 < significand < 0x1_0000_0000_0000_0000 && sign != Zero && exponent >= -UNIT
    ensures Canonical(Nonzero(sign, significand, exponent))
    ensures KeyMagnitude(Nonzero(sign, significand, exponent)) == significand * Pow2(exponent + UNIT)
  {
    OddPartTimes(significand);
    Shifted(OddPart(significand), TrailingZeros(significand), exponent + UNIT);
  }

  lemma IntKeyMeans(key: Key, i: int)
    requires -0x8000_0000_0000_0000 <= i < 0x1_0000_0000_0000_0000
    requires key == if i == 0 then ZERO_KEY else Nonzero(if i < 0 then Negative else Positive, UnsignedAbs(i), 0)
    ensures Canonical(key) && KeyUnits(key) == i * Pow2(UNIT)
  {
    SignedTimes(i, Pow2(UNIT));
    if i != 0 {
      NonzeroMeans(key.sign, UnsignedAbs(i), 0);
    }
  }

  lemma SignedTimes(i: int, p: nat)
    ensures Signed(i < 0, UnsignedAbs(i) * p) == i * p
  {
    if i < 0 {
      assert (-i) * p == -(i * p);
    }
  }

  /** A key exists exactly for finite numbers, and it stands for the value exactly. */
  lemma KeyMeans(v: PropValue)
    ensures NumericKey(v).Some? <==> Units(v).Some?
    ensures NumericKey(v).Some? ==>
              Canonical(NumericKey(v).value) && KeyUnits(NumericKey(v).value) == Units(v).value
  {
    match v
    case Int(i) =>
      IntKeyMeans(KeyFromInt(i), i);
    case UInt(u) =>
      IntKeyMeans(KeyFromUInt(u), u);
    case Float(bits) =>
      FloatKeyMeans(bits);
    case _ =>
  }

  lemma FloatKeyMeans(bits: Bits64)
    ensures KeyFromFloat(bits).Some? <==> Finite(bits)
    ensures Finite(bits) ==>
              && Canonical(KeyFromFloat(bits).value)
              && Some(KeyUnits(KeyFromFloat(bits).value)) == Units(Float(bits))
  {
    var e, f := ExponentField(bits), FractionField(bits);
    var sign := if SignBit(bits) == 0 then Positive else Negative;
    if e == 0 && f > 0 {
      NonzeroMeans(sign, f, -UNIT);
      assert f * Pow2(0) == f;
    } else if 0 < e < 2047 {
      NonzeroMeans(sign, FRACTION_LIMIT + f, e - 1023 - 52);
    }
  }

  // ---- Order ----

  function Order(a: int, b: int): Ordering {
    if a < b then Less else if a == b then Equal else Greater
  }

  function MagnitudeRank(k: Key): int { k.exponent + BitLength(k.significand) - 1 }

  /** The significand moved up until its top bit is the top one of 128. */
  function NormalizedFraction(k: Key): Bits128 {
    FitsWhenMoved(k.significand);
    k.significand * Pow2(128 - BitLength(k.significand))
  }

  lemma FitsWhenMoved(n: Bits128)
    ensures BitLength(n) <= 128 && 0 <= n * Pow2(128 - BitLength(n)) < 2 * TOP_BIT
  {
    TopBit();
    BitLengthAtMost(n, 128);
    if n > 0 {
      MovedToTop(n, 0, 127, TOP_BIT);
    }
  }

  function CompareMagnitudes(a: Key, b: Key): Ordering {
    match Order(MagnitudeRank(a), MagnitudeRank(b))
    case Equal => Order(NormalizedFraction(a), NormalizedFraction(b))
    case Less => Less
    case Greater => Greater
  }

  function CompareKeys(a: Key, b: Key): Ordering {
    match (a.sign, b.sign)
    case (Negative, Negative) => CompareMagnitudes(b, a)
    case (Zero, Zero) => Equal
    case (Positive, Positive) => CompareMagnitudes(a, b)
    case (Negative, _) => Less
    case (_, Negative) => Greater
    case (Zero, Positive) => Less
    case (Positive, Zero) => Greater
  }

  /** A number moved up until its top bit is bit `top`, and what that does to its multiples. */
  lemma MovedToTop(n: nat, e: nat, top: nat, p: nat)
    requires 0 < n && BitLength(n) <= top + 1 && p == Pow2(top)
    ensures var fraction := n * Pow2(top + 1 - BitLength(n));
            && p <= fraction < 2 * p
            && fraction * Pow2(e + BitLength(n) - 1) == n * Pow2(e) * p
  {
    var bits := BitLength(n);
    BitLengthBounds(n);
    Shifted(n, top + 1 - bits, e + bits - 1);
    Shifted(n, e, top);
    BitLengthShifted(n, top + 1 - bits);
    BitLengthBounds(n * Pow2(top + 1 - bits));
  }

  lemma TopBit()
    ensures Pow2(127) == TOP_BIT && Pow2(128) == 2 * TOP_BIT
  {
    WordPowers();
  }

  lemma IntegerBits(n: nat)
    ensures n < 0x1_0000_0000_0000_0000 <==> BitLength(n) <= 64
    ensures n < 0x8000_0000_0000_0000 <==> BitLength(n) <= 63
  {
    WordPowers();
    BitLengthAtMost(n, 64);
    BitLengthAtMost(n, 63);
  }

  lemma FloatBitsFit(n: nat)
    ensures n < 0x20_0000_0000_0000 <==> BitLength(n) <= 53
    ensures n < FRACTION_LIMIT <==> BitLength(n) <= 52
  {
    WordPowers();
    BitLengthAtMost(n, 53);
    BitLengthAtMost(n, 52);
  }

  lemma SignificandFits(k: Key)
    requires Canonical(k) && k.sign != Zero
    ensures BitLength(k.significand) <= 64
  {
    IntegerBits(k.significand);
  }

  /** The fraction at the rank is the magnitude, scaled so that the fraction has 128 bits. */
  lemma FractionMeans(k: Key)
    requires Canonical(k) && k.sign != Zero
    ensures TOP_BIT <= NormalizedFraction(k) < 2 * TOP_BIT
    ensures MagnitudeRank(k) >= -UNIT
    ensures NormalizedFraction(k) * Pow2(MagnitudeRank(k) + UNIT) == KeyMagnitude(k) * TOP_BIT
  {
    TopBit();
    SignificandFits(k);
    BitLengthBounds(k.significand);
    MovedToTop(k.significand, k.exponent + UNIT, 127, TOP_BIT);
  }

  lemma MagnitudeOrder(a: Key, b: Key)
    requires Canonical(a) && Canonical(b) && a.sign != Zero && b.sign != Zero
    ensures CompareMagnitudes(a, b) == Order(KeyMagnitude(a), KeyMagnitude(b))
  {
    FractionMeans(a);
    FractionMeans(b);
    var x, y := NormalizedFraction(a), NormalizedFraction(b);
    if MagnitudeRank(a) < MagnitudeRank(b) {
      LowerRankIsSmaller(x, MagnitudeRank(a) + UNIT, y, MagnitudeRank(b) + UNIT);
    } else if MagnitudeRank(b) < MagnitudeRank(a) {
      LowerRankIsSmaller(y, MagnitudeRank(b) + UNIT, x, MagnitudeRank(a) + UNIT);
    } else {
      TimesMonotone(x, y, Pow2(MagnitudeRank(a) + UNIT));
      TimesMonotone(y, x, Pow2(MagnitudeRank(a) + UNIT));
    }
  }

  lemma LowerRankIsSmaller(x: nat, low: nat, y: nat, high: nat)
    requires low < high && x < 2 * TOP_BIT && TOP_BIT <= y
    ensures x * Pow2(low) < y * Pow2(high)
  {
    var p := Pow2(low);
    Pow2Grows(low, high);
    TimesMonotone(x, 2 * TOP_BIT, p);
    assert TOP_BIT * Pow2(high) <= y * Pow2(high) by {
      if TOP_BIT < y {
        TimesMonotone(TOP_BIT, y, Pow2(high));
      }
    }
    assert (2 * TOP_BIT) * p <= TOP_BIT * Pow2(high);
  }

  lemma NonzeroHasMagnitude(k: Key)
    requires Canonical(k) && k.sign != Zero
    ensures KeyMagnitude(k) > 0
  {
    OddTimesPowerUnique(k.significand, k.exponent + UNIT);
  }

  /** Comparing keys compares the exact values. */
  lemma CompareIsValueOrder(a: Key, b: Key)
    requires Canonical(a) && Canonical(b)
    ensures CompareKeys(a, b) == Order(KeyUnits(a), KeyUnits(b))
  {
    if a.sign != Zero {
      NonzeroHasMagnitude(a);
    }
    if b.sign != Zero {
      NonzeroHasMagnitude(b);
    }
    if a.sign == Positive && b.sign == Positive {
      MagnitudeOrder(a, b);
    } else if a.sign == Negative && b.sign == Negative {
      MagnitudeOrder(b, a);
    }
  }

  /** Two canonical keys are the same key exactly when they stand for the same value. */
  lemma SameValueSameKey(a: Key, b: Key)
    requires Canonical(a) && Canonical(b)
    ensures a == b <==> KeyUnits(a) == KeyUnits(b)
  {
    if a.sign != Zero {
      NonzeroHasMagnitude(a);
    }
    if b.sign != Zero {
      NonzeroHasMagnitude(b);
    }
    if KeyUnits(a) == KeyUnits(b) && a.sign != Zero {
      OddTimesPowerInjective(a.significand, a.exponent + UNIT, b.significand, b.exponent + UNIT);
    }
  }

  // ---- Equality of property values ----

  /** Equality of the written form: same variant, same content, and no NaN anywhere. */
  predicate RawEqual(a: PropValue, b: PropValue)
    decreases a
  {
    match (a, b)
    case (Null, Null) => true
    case (Bool(x), Bool(y)) => x == y
    case (Int(x), Int(y)) => x == y
    case (UInt(x), UInt(y)) => x == y
    case (Float(x), Float(y)) => !IsNaN(x) && !IsNaN(y) && x == y
    case (Text(x), Text(y)) => x == y
    case (Blob(x), Blob(y)) => x == y
    case (Array(xs), Array(ys)) => |xs| == |ys| && forall i | 0 <= i < |xs| :: RawEqual(xs[i], ys[i])
    case (Dict(xs), Dict(ys)) => |xs| == |ys| && forall k | k in xs :: k in ys && RawEqual(xs[k], ys[k])
    case _ => false
  }

  predicate IsNaN(bits: Bits64) { !Finite(bits) && FractionField(bits) != 0 }

  predicate HasNaN(v: PropValue) {
    match v
    case Float(bits) => IsNaN(bits)
    case Array(items) => exists i | 0 <= i < |items| :: HasNaN(items[i])
    case Dict(entries) => exists k | k in entries :: HasNaN(entries[k])
    case _ => false
  }

  function SemanticEqual(a: PropValue, b: PropValue): bool {
    match (NumericKey(a), NumericKey(b))
    case (Some(x), Some(y)) => x == y
    case _ => RawEqual(a, b)
  }

  lemma SubsetOfSameSize<T>(xs: set<T>, ys: set<T>)
    requires xs <= ys && |xs| == |ys|
    ensures xs == ys
  {
    assert ys == xs + (ys - xs);
    assert |ys - xs| == 0;
  }

  lemma DictsEqual(xs: map<string, PropValue>, ys: map<string, PropValue>)
    requires |xs| == |ys| && forall k | k in xs :: k in ys && xs[k] == ys[k]
    ensures xs == ys
  {
    assert |xs.Keys| == |xs| && |ys.Keys| == |ys|;
    SubsetOfSameSize(xs.Keys, ys.Keys);
  }

  lemma {:induction false} RawEqualIsIdentity(a: PropValue, b: PropValue)
    ensures RawEqual(a, b) <==> a == b && !HasNaN(a)
    decreases a
  {
    match (a, b)
    case (Array(xs), Array(ys)) =>
      forall i | 0 <= i < |xs| && |xs| == |ys|
        ensures RawEqual(xs[i], ys[i]) <==> xs[i] == ys[i] && !HasNaN(xs[i])
      {
        RawEqualIsIdentity(xs[i], ys[i]);
      }
      if RawEqual(a, b) {
        assert xs == ys;
      }
    case (Dict(xs), Dict(ys)) =>
      forall k | k in xs && k in ys
        ensures RawEqual(xs[k], ys[k]) <==> xs[k] == ys[k] && !HasNaN(xs[k])
      {
        RawEqualIsIdentity(xs[k], ys[k]);
      }
      if RawEqual(a, b) {
        DictsEqual(xs, ys);
      }
    case _ =>
  }

  /** Finite numbers are equal exactly when their values are, whatever their types; anything else is
      equal to itself only, and a NaN not even to that. */
  lemma EqualityMeans(a: PropValue, b: PropValue)
    ensures Units(a).Some? && Units(b).Some? ==> (SemanticEqual(a, b) <==> Units(a) == Units(b))
    ensures Units(a).None? || Units(b).None? ==> (SemanticEqual(a, b) <==> a == b && !HasNaN(a))
  {
    KeyMeans(a);
    KeyMeans(b);
    if Units(a).Some? && Units(b).Some? {
      SameValueSameKey(NumericKey(a).value, NumericKey(b).value);
    } else {
      RawEqualIsIdentity(a, b);
    }
  }
}
