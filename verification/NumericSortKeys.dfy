/** The 24-byte form of a numeric key: byte order is value order, and the validator accepts exactly
    the strings that some value produces. */
module NumericSortKeys {
  import opened BinaryNumbers
  import opened Bytes
  import opened NumericKeys

  const KEY_BYTES := 24
  const WORD: nat := 0x1_0000_0000
  const SIGN_BIT: int := 0x8000_0000

  // ---- 32-bit words ----

  predicate IsI32(i: int) { -SIGN_BIT <= i < SIGN_BIT }

  /** Two's complement bits of a signed word. */
  function AsU32(i: int): (w: nat)
    ensures w < WORD
  {
    i % WORD
  }

  function AsI32(w: nat): int { if w < SIGN_BIT then w else w - WORD }

  /** Exclusive or with the top bit. */
  function FlipTop(w: nat): (r: nat)
    requires w < WORD
    ensures r < WORD
  {
    if w < SIGN_BIT then w + SIGN_BIT else w - SIGN_BIT
  }

  function Complement(n: nat, width: nat): (r: nat)
    requires n < Pow256(width)
    ensures r < Pow256(width)
  {
    Pow256(width) - 1 - n
  }

  // ---- Writing ----

  function RankBits(rank: int): (w: nat)
    ensures w < Pow256(4)
  {
    Widths();
    FlipTop(AsU32(rank))
  }

  lemma RankBitsOrder(rank: int)
    requires IsI32(rank)
    ensures RankBits(rank) == rank + SIGN_BIT
    ensures AsI32(FlipTop(RankBits(rank))) == rank
  {
  }

  lemma Widths()
    ensures Pow256(4) == WORD && Pow256(16) == 2 * TOP_BIT
  {
    PowersOf256();
    Pow256Add(8, 8);
  }

  lemma {:induction false} Pow256Add(a: nat, b: nat)
    ensures Pow256(a + b) == Pow256(a) * Pow256(b)
    decreases a
  {
    if a > 0 {
      Pow256Add(a - 1, b);
      assert 256 * (Pow256(a - 1) * Pow256(b)) == (256 * Pow256(a - 1)) * Pow256(b);
    }
  }

  /** The payload of a nonzero key, complemented when it is negative. */
  function Payload(negative: bool, rankBits: nat, fraction: nat): Data
    requires rankBits < Pow256(4) && fraction < Pow256(16)
    ensures |Payload(negative, rankBits, fraction)| == 20
  {
    if negative then BE(Complement(rankBits, 4), 4) + BE(Complement(fraction, 16), 16)
    else BE(rankBits, 4) + BE(fraction, 16)
  }

  function KeyPayload(k: Key): (bytes: Data)
    ensures |bytes| == 20
  {
    Widths();
    Payload(k.sign == Negative, RankBits(MagnitudeRank(k)), NormalizedFraction(k))
  }

  function SortKey(k: Key): (bytes: Data)
    ensures |bytes| == KEY_BYTES
  {
    match k.sign
    case Zero => [1] + Zeros(23)
    case Negative => [0] + (KeyPayload(k) + Zeros(3))
    case Positive => [2] + (KeyPayload(k) + Zeros(3))
  }

  function Zeros(n: nat): (s: Data)
    ensures |s| == n
  {
    seq(n, i => 0)
  }

  // ---- Reading ----

  datatype Decoded = Decoded(key: Key, rank: int, bitLength: int)

  function Field(bytes: Data): (n: nat)
    ensures n < Pow256(|bytes|)
  {
    FromBEBound(bytes);
    FromBE(bytes)
  }

  function DecodeFields(sign: Sign, rankBits: nat, fraction: Bits128): Result<Decoded>
    requires rankBits < WORD
  {
    if fraction == 0 then Err
    else if fraction < TOP_BIT then Err
    else
      var rank := AsI32(FlipTop(rankBits));
      var bitLength := 128 - TrailingZeros(fraction);
      var significand := ShiftRight(fraction, TrailingZeros(fraction));
      var exponent := rank - (bitLength - 1);
      if exponent < -SIGN_BIT then Err
      else Ok(Decoded(Key(sign, exponent, significand), rank, bitLength))
  }

  function DecodeNonzero(bytes: Data): Result<Decoded>
    requires |bytes| == KEY_BYTES
  {
    Widths();
    var rankBits := Field(bytes[1..5]);
    var fraction := Field(bytes[5..21]);
    if bytes[0] == 0 then DecodeFields(Negative, Complement(rankBits, 4), Complement(fraction, 16))
    else DecodeFields(Positive, rankBits, fraction)
  }

  /** Whether some value has this nonzero key. */
  predicate Emittable(k: Key, rank: int, bitLength: int) {
    && k.significand % 2 == 1
    && (|| (k.exponent >= -1074 && bitLength <= 53 && rank <= 1023)
        || (k.exponent >= 0 &&
            match k.sign
            case Positive => rank <= 63
            case Negative => rank < 63 || (rank == 63 && k.significand == 1 && k.exponent == 63)
            case Zero => false))
  }

  predicate AllZero(bytes: Data) { forall i | 0 <= i < |bytes| :: bytes[i] == 0 }

  predicate AcceptsNonzero(bytes: Data)
    requires |bytes| == KEY_BYTES
  {
    match DecodeNonzero(bytes)
    case Err => false
    case Ok(d) =>
      Emittable(d.key, d.rank, d.bitLength) && SortKey(d.key) == bytes
  }

  /** The check on a key read from a sidecar file. */
  predicate Accepts(bytes: Data)
    requires |bytes| == KEY_BYTES
  {
    if bytes[0] == 0 || bytes[0] == 2 then AllZero(bytes[21..24]) && AcceptsNonzero(bytes)
    else if bytes[0] == 1 then AllZero(bytes[1..24])
    else false
  }

  // ---- The keys that values have ----

  /** The check a nonzero key must pass, at its own rank and bit length. */
  predicate KeyEmittable(k: Key) {
    Emittable(k, MagnitudeRank(k), BitLength(k.significand))
  }

  lemma NonzeroRank(sign: Sign, significand: Bits128, exponent: int)
    requires significand > 0
    ensures var k := Nonzero(sign, significand, exponent);
            && MagnitudeRank(k) == exponent + BitLength(significand) - 1
            && BitLength(k.significand) <= BitLength(significand)
            && k.exponent >= exponent
  {
    OddPartTimes(significand);
    BitLengthShifted(OddPart(significand), TrailingZeros(significand));
  }

  lemma EmittedByInt(i: int)
    requires -0x8000_0000_0000_0000 <= i < 0x1_0000_0000_0000_0000 && i != 0
    ensures KeyEmittable(Nonzero(if i < 0 then Negative else Positive, UnsignedAbs(i), 0))
  {
    var k := Nonzero(if i < 0 then Negative else Positive, UnsignedAbs(i), 0);
    NonzeroRank(k.sign, UnsignedAbs(i), 0);
    IntegerBits(UnsignedAbs(i));
    if UnsignedAbs(i) == 0x8000_0000_0000_0000 {
      TopIntegerKey();
    }
  }

  lemma TopIntegerKey()
    ensures TrailingZeros(0x8000_0000_0000_0000) == 63 && OddPart(0x8000_0000_0000_0000) == 1
  {
    WordPowers();
    OddTimesPowerUnique(1, 63);
  }

  lemma EmittedByFloat(bits: Bits64)
    requires Finite(bits) && KeyFromFloat(bits).value.sign != Zero
    ensures KeyEmittable(KeyFromFloat(bits).value)
  {
    var e: int, f := ExponentField(bits), FractionField(bits);
    var significand := if e == 0 then f else FRACTION_LIMIT + f;
    FloatBitsFit(significand);
    NonzeroRank(KeyFromFloat(bits).value.sign, significand, if e == 0 then -1074 else e - 1075);
  }

  /** Every key made from a value passes the check. */
  lemma EmittedKeysPass(v: PropValue)
    requires NumericKey(v).Some? && NumericKey(v).value.sign != Zero
    ensures KeyEmittable(NumericKey(v).value)
  {
    match v
    case Int(i) => EmittedByInt(i);
    case UInt(u) => EmittedByInt(u);
    case Float(bits) => EmittedByFloat(bits);
  }

  lemma EmittableIsCanonical(k: Key)
    requires k.sign != Zero && KeyEmittable(k)
    ensures Canonical(k) && IsI32(MagnitudeRank(k)) && IsI32(k.exponent)
    ensures -1074 <= k.exponent <= MagnitudeRank(k) <= 1023
  {
    BitLengthBounds(k.significand);
    IntegerBits(k.significand);
  }

  lemma NonzeroInverts(sign: Sign, odd: Bits128, k: nat, exponent: int, n: Bits128)
    requires odd % 2 == 1 && n == odd * Pow2(k)
    ensures n > 0 && Nonzero(sign, n, exponent) == Key(sign, exponent + k, odd)
    ensures BitLength(n) == BitLength(odd) + k
  {
    OddTimesPowerUnique(odd, k);
    BitLengthShifted(odd, k);
  }

  lemma LowestIntegerHasKey()
    ensures NumericKey(Int(-0x8000_0000_0000_0000)) == Some(Key(Negative, 63, 1))
  {
    TopIntegerKey();
  }

  lemma IntegerHasKey(k: Key, n: Bits64)
    requires k.sign == Positive || (k.sign == Negative && n < 0x8000_0000_0000_0000)
    requires n > 0 && Nonzero(k.sign, n, 0) == k
    ensures exists v :: NumericKey(v) == Some(k)
  {
    if k.sign == Positive {
      assert NumericKey(UInt(n)) == Some(k);
    } else {
      assert NumericKey(Int(-(n as int))) == Some(k);
    }
  }

  /** Some integer has this key. */
  lemma IntegerWithKey(k: Key)
    requires k.sign != Zero && KeyEmittable(k) && k.exponent >= 0 && MagnitudeRank(k) <= 63
    requires k.sign == Negative && MagnitudeRank(k) == 63 ==> k == Key(Negative, 63, 1)
    ensures exists v :: NumericKey(v) == Some(k)
  {
    if k == Key(Negative, 63, 1) {
      LowestIntegerHasKey();
    } else {
      var n := k.significand * Pow2(k.exponent);
      BitLengthShifted(k.significand, k.exponent);
      IntegerBits(n);
      NonzeroInverts(k.sign, k.significand, k.exponent, 0, n);
      IntegerHasKey(k, n);
    }
  }

  lemma FloatHasKey(sign: Sign, e: nat, f: nat)
    requires sign != Zero && e < 2047 && f < FRACTION_LIMIT
    ensures e == 0 && f > 0 ==> exists v :: NumericKey(v) == Some(Nonzero(sign, f, -1074))
    ensures e > 0 ==> exists v :: NumericKey(v) == Some(Nonzero(sign, FRACTION_LIMIT + f, (e as int) - 1075))
  {
    var bits := FloatBits(if sign == Positive then 0 else 1, e, f);
    assert NumericKey(Float(bits)) == KeyFromFloat(bits);
  }

  /** Some subnormal number has this key. */
  lemma SubnormalWithKey(k: Key)
    requires k.sign != Zero && KeyEmittable(k) && MagnitudeRank(k) < -1022
    ensures exists v :: NumericKey(v) == Some(k)
  {
    EmittableIsCanonical(k);
    var shift: nat := k.exponent + 1074;
    var n := k.significand * Pow2(shift);
    BitLengthShifted(k.significand, shift);
    FloatBitsFit(n);
    NonzeroInverts(k.sign, k.significand, shift, -1074, n);
    FloatHasKey(k.sign, 0, n);
  }

  lemma PaddedSignificand(odd: Bits128, shift: nat) returns (n: Bits64)
    requires odd > 0 && BitLength(odd) + shift == 53
    ensures n == odd * Pow2(shift) && FRACTION_LIMIT <= n < 2 * FRACTION_LIMIT
  {
    BitLengthShifted(odd, shift);
    FloatBitsFit(odd * Pow2(shift));
    n := odd * Pow2(shift);
  }

  /** Some normal number has this key. */
  lemma NormalWithKey(k: Key)
    requires k.sign != Zero && KeyEmittable(k) && BitLength(k.significand) <= 53
    requires -1022 <= MagnitudeRank(k) <= 1023
    ensures exists v :: NumericKey(v) == Some(k)
  {
    var shift := 53 - BitLength(k.significand);
    var n := PaddedSignificand(k.significand, shift);
    NonzeroInverts(k.sign, k.significand, shift, k.exponent - shift, n);
    FloatHasKey(k.sign, MagnitudeRank(k) + 1023, n - FRACTION_LIMIT);
  }

  /** A nonzero key passes the check exactly when some i64, u64 or finite f64 has it. */
  lemma EmittableExactly(k: Key)
    requires k.sign != Zero
    ensures KeyEmittable(k) <==> exists v :: NumericKey(v) == Some(k)
  {
    if v :| NumericKey(v) == Some(k) {
      EmittedKeysPass(v);
    }
    if KeyEmittable(k) {
      EmittableIsCanonical(k);
      if BitLength(k.significand) > 53 {
        IntegerWithKey(k);
      } else if MagnitudeRank(k) < -1022 {
        SubnormalWithKey(k);
      } else {
        NormalWithKey(k);
      }
    }
  }

  // ---- Decoding inverts encoding ----

  lemma FractionParts(k: Key)
    requires Canonical(k) && k.sign != Zero
    ensures NormalizedFraction(k) > 0 && TrailingZeros(NormalizedFraction(k)) == 128 - BitLength(k.significand)
    ensures ShiftRight(NormalizedFraction(k), TrailingZeros(NormalizedFraction(k))) == k.significand
  {
    SignificandFits(k);
    OddTimesPowerUnique(k.significand, 128 - BitLength(k.significand));
    ShiftOutZeros(NormalizedFraction(k));
  }

  lemma FieldsDecode(k: Key)
    requires k.sign != Zero && KeyEmittable(k)
    ensures DecodeFields(k.sign, RankBits(MagnitudeRank(k)), NormalizedFraction(k))
            == Ok(Decoded(k, MagnitudeRank(k), BitLength(k.significand)))
  {
    EmittableIsCanonical(k);
    FractionMeans(k);
    FractionParts(k);
    RankBitsOrder(MagnitudeRank(k));
    PartsDecode(k, RankBits(MagnitudeRank(k)), NormalizedFraction(k));
  }

  lemma PartsDecode(k: Key, rankBits: nat, fraction: Bits128)
    requires rankBits < WORD && AsI32(FlipTop(rankBits)) == MagnitudeRank(k)
    requires fraction >= TOP_BIT && TrailingZeros(fraction) == 128 - BitLength(k.significand)
    requires ShiftRight(fraction, TrailingZeros(fraction)) == k.significand
    requires k.exponent >= -SIGN_BIT
    ensures DecodeFields(k.sign, rankBits, fraction) == Ok(Decoded(k, MagnitudeRank(k), BitLength(k.significand)))
  {
  }

  lemma Slices(head: byte, a: Data, b: Data, bytes: Data)
    requires |a| == 4 && |b| == 16 && bytes == [head] + ((a + b) + Zeros(3))
    ensures bytes[1..5] == a && bytes[5..21] == b && bytes[21..24] == Zeros(3)
  {
  }

  lemma FieldsOf(head: byte, x: nat, y: nat, bytes: Data)
    requires x < Pow256(4) && y < Pow256(16) && bytes == [head] + ((BE(x, 4) + BE(y, 16)) + Zeros(3))
    ensures Field(bytes[1..5]) == x && Field(bytes[5..21]) == y && bytes[21..24] == Zeros(3)
  {
    Slices(head, BE(x, 4), BE(y, 16), bytes);
    BERoundTrip(x, 4);
    BERoundTrip(y, 16);
  }

  /** Decoding the sort key of a value's key gives the key back, with no overflow on the way. */
  lemma DecodeInverts(k: Key)
    requires k.sign != Zero && KeyEmittable(k)
    ensures DecodeNonzero(SortKey(k)) == Ok(Decoded(k, MagnitudeRank(k), BitLength(k.significand)))
    ensures AllZero(SortKey(k)[21..24])
    ensures IsI32(MagnitudeRank(k)) && IsI32(k.exponent) && IsI32(k.exponent + BitLength(k.significand))
    ensures 0 < BitLength(k.significand) <= 128
  {
    EmittableIsCanonical(k);
    SignificandFits(k);
    BitLengthBounds(k.significand);
    FieldsDecode(k);
    SortKeyFields(k);
    Widths();
    ComplementTwice(RankBits(MagnitudeRank(k)), 4);
    ComplementTwice(NormalizedFraction(k), 16);
  }

  lemma SortKeyFields(k: Key)
    requires k.sign != Zero
    ensures RankBits(MagnitudeRank(k)) < Pow256(4) && NormalizedFraction(k) < Pow256(16)
    ensures var x, y, bytes := RankBits(MagnitudeRank(k)), NormalizedFraction(k), SortKey(k);
            && bytes[0] == (if k.sign == Negative then 0 else 2)
            && Field(bytes[1..5]) == (if k.sign == Negative then Complement(x, 4) else x)
            && Field(bytes[5..21]) == (if k.sign == Negative then Complement(y, 16) else y)
            && AllZero(bytes[21..24])
  {
    Widths();
    var x, y := RankBits(MagnitudeRank(k)), NormalizedFraction(k);
    if k.sign == Negative {
      FieldsOf(0, Complement(x, 4), Complement(y, 16), SortKey(k));
    } else {
      FieldsOf(2, x, y, SortKey(k));
    }
  }

  lemma DecodedFields(sign: Sign, rankBits: nat, fraction: Bits128)
    requires rankBits < WORD && DecodeFields(sign, rankBits, fraction).Ok?
    ensures var d := DecodeFields(sign, rankBits, fraction).value;
            && d.key.sign == sign && d.key.significand % 2 == 1
            && d.rank == MagnitudeRank(d.key) && d.bitLength == BitLength(d.key.significand)
            && RankBits(d.rank) == rankBits && NormalizedFraction(d.key) == fraction
  {
    FullFraction(fraction);
  }

  lemma FullFraction(fraction: Bits128)
    requires fraction >= TOP_BIT
    ensures BitLength(OddPart(fraction)) == 128 - TrailingZeros(fraction)
    ensures OddPart(fraction) * Pow2(TrailingZeros(fraction)) == fraction
    ensures ShiftRight(fraction, TrailingZeros(fraction)) == OddPart(fraction)
  {
    OddPartTimes(fraction);
    ShiftOutZeros(fraction);
    TopBit();
    BitLengthUnique(fraction, 128);
    BitLengthShifted(OddPart(fraction), TrailingZeros(fraction));
  }

  lemma BytesOfFields(bytes: Data)
    requires |bytes| == KEY_BYTES && AllZero(bytes[21..24])
    ensures bytes == [bytes[0]] + ((BE(Field(bytes[1..5]), 4) + BE(Field(bytes[5..21]), 16)) + Zeros(3))
  {
    FromBERoundTrip(bytes[1..5]);
    FromBERoundTrip(bytes[5..21]);
    assert bytes[21..24] == Zeros(3);
    assert bytes == [bytes[0]] + ((bytes[1..5] + bytes[5..21]) + bytes[21..24]);
  }

  lemma ComplementTwice(n: nat, width: nat)
    requires n < Pow256(width)
    ensures Complement(Complement(n, width), width) == n
  {
  }

  /** What decodes is what would be written: the final re-encoding check never rejects anything. */
  lemma EncodeInverts(bytes: Data)
    requires |bytes| == KEY_BYTES && (bytes[0] == 0 || bytes[0] == 2) && AllZero(bytes[21..24])
    requires DecodeNonzero(bytes).Ok?
    ensures var d := DecodeNonzero(bytes).value;
            && SortKey(d.key) == bytes && d.key.sign != Zero
            && d.rank == MagnitudeRank(d.key) && d.bitLength == BitLength(d.key.significand)
  {
    Widths();
    BytesOfFields(bytes);
    var x, y := Field(bytes[1..5]), Field(bytes[5..21]);
    if bytes[0] == 0 {
      DecodedFields(Negative, Complement(x, 4), Complement(y, 16));
      ComplementTwice(x, 4);
      ComplementTwice(y, 16);
    } else {
      DecodedFields(Positive, x, y);
    }
  }

  /** The validator accepts a 24-byte string exactly when it is the sort key of some i64, u64 or
      finite f64. */
  lemma AcceptsExactlySortKeys(bytes: Data)
    requires |bytes| == KEY_BYTES
    ensures Accepts(bytes) <==> exists v :: NumericKey(v).Some? && SortKey(NumericKey(v).value) == bytes
  {
    if v :| NumericKey(v).Some? && SortKey(NumericKey(v).value) == bytes {
      var k := NumericKey(v).value;
      if k.sign != Zero {
        EmittedKeysPass(v);
        DecodeInverts(k);
      }
    }
    if Accepts(bytes) {
      if bytes[0] == 1 {
        assert bytes == [1] + bytes[1..24];
        assert bytes[1..24] == Zeros(23);
        assert NumericKey(Int(0)) == Some(ZERO_KEY);
      } else {
        EncodeInverts(bytes);
        EmittableExactly(DecodeNonzero(bytes).value.key);
      }
    }
  }

  // ---- Order ----

  lemma ComplementOrder(m: nat, n: nat, width: nat)
    requires m < Pow256(width) && n < Pow256(width)
    ensures LexLess(BE(Complement(m, width), width), BE(Complement(n, width), width)) <==> n < m
    ensures BE(Complement(m, width), width) == BE(Complement(n, width), width) <==> m == n
  {
    BEOrder(Complement(m, width), Complement(n, width), width);
  }

  /** The order of the two fields together. */
  predicate FieldsLess(x: nat, y: nat, x': nat, y': nat) {
    x < x' || (x == x' && y < y')
  }

  lemma PayloadOrder(negative: bool, x: nat, y: nat, x': nat, y': nat)
    requires x < Pow256(4) && y < Pow256(16) && x' < Pow256(4) && y' < Pow256(16)
    ensures LexLess(Payload(negative, x, y), Payload(negative, x', y')) <==>
            if negative then FieldsLess(x', y', x, y) else FieldsLess(x, y, x', y')
    ensures Payload(negative, x, y) == Payload(negative, x', y') <==> x == x' && y == y'
  {
    if negative {
      ComplementOrder(x, x', 4);
      ComplementOrder(y, y', 16);
      PartsOrder(BE(Complement(x, 4), 4), BE(Complement(y, 16), 16), BE(Complement(x', 4), 4), BE(Complement(y', 16), 16));
    } else {
      BEOrder(x, x', 4);
      BEOrder(y, y', 16);
      PartsOrder(BE(x, 4), BE(y, 16), BE(x', 4), BE(y', 16));
    }
  }

  lemma PartsOrder(a: Data, x: Data, b: Data, y: Data)
    requires |a| == |b| && |x| == |y|
    ensures LexLess(a + x, b + y) <==> LexLess(a, b) || (a == b && LexLess(x, y))
    ensures a + x == b + y <==> a == b && x == y
  {
    LexConcat(a, b, x, y);
    if a + x == b + y {
      assert a == (a + x)[..|a|] && b == (b + y)[..|b|];
      assert x == (a + x)[|a|..] && y == (b + y)[|b|..];
    }
  }

  lemma {:induction false} NotLessThanItself(s: Data)
    ensures !LexLess(s, s)
    decreases |s|
  {
    if s != [] {
      NotLessThanItself(s[1..]);
    }
  }

  /** Strings of one class compare as their payloads do. */
  lemma SameClassOrder(head: byte, a: Data, b: Data)
    requires |a| == |b|
    ensures LexLess([head] + (a + Zeros(3)), [head] + (b + Zeros(3))) <==> LexLess(a, b)
    ensures [head] + (a + Zeros(3)) == [head] + (b + Zeros(3)) <==> a == b
  {
    PartsOrder([head], a + Zeros(3), [head], b + Zeros(3));
    PartsOrder(a, Zeros(3), b, Zeros(3));
    NotLessThanItself(Zeros(3));
    NotLessThanItself([head]);
  }

  lemma ClassOrder(a: Data, b: Data)
    requires |a| == |b| && a != [] && a[0] != b[0]
    ensures LexLess(a, b) <==> a[0] < b[0]
  {
  }

  lemma KeyPayloadOrder(a: Key, b: Key)
    requires IsI32(MagnitudeRank(a)) && IsI32(MagnitudeRank(b)) && a.sign == b.sign && a.sign != Zero
    ensures LexLess(KeyPayload(a), KeyPayload(b)) <==> CompareKeys(a, b) == Less
    ensures KeyPayload(a) == KeyPayload(b) <==> CompareKeys(a, b) == Equal
  {
    Widths();
    RankBitsOrder(MagnitudeRank(a));
    RankBitsOrder(MagnitudeRank(b));
    PayloadOrder(a.sign == Negative, RankBits(MagnitudeRank(a)), NormalizedFraction(a),
                 RankBits(MagnitudeRank(b)), NormalizedFraction(b));
  }

  /** Byte order of sort keys is the order of the keys. */
  lemma SortKeyOrder(a: Key, b: Key)
    requires IsI32(MagnitudeRank(a)) && IsI32(MagnitudeRank(b))
    ensures LexLess(SortKey(a), SortKey(b)) <==> CompareKeys(a, b) == Less
    ensures SortKey(a) == SortKey(b) <==> CompareKeys(a, b) == Equal
  {
    if a.sign != b.sign {
      ClassOrder(SortKey(a), SortKey(b));
    } else if a.sign == Zero {
      NotLessThanItself(SortKey(a));
    } else {
      KeyPayloadOrder(a, b);
      SameClassOrder(if a.sign == Negative then 0 else 2, KeyPayload(a), KeyPayload(b));
    }
  }

  function SortKeyOf(v: PropValue): Option<Data> {
    match NumericKey(v)
    case None => None
    case Some(k) => Some(SortKey(k))
  }

  lemma RankInRange(v: PropValue)
    requires NumericKey(v).Some?
    ensures IsI32(MagnitudeRank(NumericKey(v).value))
  {
    if NumericKey(v).value.sign != Zero {
      EmittedKeysPass(v);
      EmittableIsCanonical(NumericKey(v).value);
    } else {
      KeyMeans(v);
    }
  }

  /** Across all three number types, byte order of sort keys, key comparison and the order of the
      exact values are one order, and equal bytes mean equal values. */
  lemma SortKeysOrderValues(v: PropValue, w: PropValue)
    requires Units(v).Some? && Units(w).Some?
    ensures SortKeyOf(v).Some? && SortKeyOf(w).Some?
    ensures LexLess(SortKeyOf(v).value, SortKeyOf(w).value) <==> Units(v).value < Units(w).value
    ensures SortKeyOf(v) == SortKeyOf(w) <==> Units(v) == Units(w)
    ensures CompareKeys(NumericKey(v).value, NumericKey(w).value) == Order(Units(v).value, Units(w).value)
  {
    KeyMeans(v);
    KeyMeans(w);
    RankInRange(v);
    RankInRange(w);
    SortKeyOrder(NumericKey(v).value, NumericKey(w).value);
    CompareIsValueOrder(NumericKey(v).value, NumericKey(w).value);
  }

  // ---- Equality keys ----

  function ClassByte(sign: Sign): byte {
    match sign
    case Negative => 0
    case Zero => 1
    case Positive => 2
  }

  /** The bytes hashed for equality lookups on numbers. */
  function EqualityKey(k: Key): Data {
    [1] + ([ClassByte(k.sign)] + (BE(AsU32(k.exponent), 4) + BE(k.significand, 16)))
  }

  lemma EqualityFields(a: Key, b: Key)
    requires IsI32(a.exponent) && IsI32(b.exponent)
    ensures BE(AsU32(a.exponent), 4) + BE(a.significand, 16) == BE(AsU32(b.exponent), 4) + BE(b.significand, 16)
            <==> a.exponent == b.exponent && a.significand == b.significand
  {
    Widths();
    BEOrder(AsU32(a.exponent), AsU32(b.exponent), 4);
    BEOrder(a.significand, b.significand, 16);
    PartsOrder(BE(AsU32(a.exponent), 4), BE(a.significand, 16), BE(AsU32(b.exponent), 4), BE(b.significand, 16));
  }

  lemma EqualityKeyInjective(a: Key, b: Key)
    requires IsI32(a.exponent) && IsI32(b.exponent)
    ensures EqualityKey(a) == EqualityKey(b) <==> a == b
  {
    EqualityFields(a, b);
    var x, y := BE(AsU32(a.exponent), 4) + BE(a.significand, 16), BE(AsU32(b.exponent), 4) + BE(b.significand, 16);
    PartsOrder([1], [ClassByte(a.sign)] + x, [1], [ClassByte(b.sign)] + y);
    PartsOrder([ClassByte(a.sign)], x, [ClassByte(b.sign)], y);
  }

  /** Two numbers have one equality key exactly when they are semantically equal. */
  lemma EqualityKeysMatchEquality(v: PropValue, w: PropValue)
    requires NumericKey(v).Some? && NumericKey(w).Some?
    ensures EqualityKey(NumericKey(v).value) == EqualityKey(NumericKey(w).value) <==> SemanticEqual(v, w)
  {
    ExponentInRange(v);
    ExponentInRange(w);
    EqualityKeyInjective(NumericKey(v).value, NumericKey(w).value);
  }

  lemma ExponentInRange(v: PropValue)
    requires NumericKey(v).Some?
    ensures IsI32(NumericKey(v).value.exponent)
  {
    if NumericKey(v).value.sign != Zero {
      EmittedKeysPass(v);
      EmittableIsCanonical(NumericKey(v).value);
    } else {
      KeyMeans(v);
    }
  }
}
