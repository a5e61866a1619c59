/** Numeric range bounds: validation, membership and intersection. */
module NumericRanges {
  import opened Bytes
  import opened NumericKeys

  datatype Bound = Bound(value: PropValue, inclusive: bool)

  datatype BoundKey = BoundKey(key: Key, inclusive: bool)

  datatype Range = Range(lower: Option<BoundKey>, upper: Option<BoundKey>, isEmpty: bool)

  function BoundsAreEmpty(lower: BoundKey, upper: BoundKey): bool {
    match CompareKeys(lower.key, upper.key)
    case Greater => true
    case Equal => !(lower.inclusive && upper.inclusive)
    case Less => false
  }

  function PairIsEmpty(lower: Option<BoundKey>, upper: Option<BoundKey>): bool {
    match (lower, upper)
    case (Some(l), Some(u)) => BoundsAreEmpty(l, u)
    case _ => false
  }

  function ValidateBound(bound: Option<Bound>): Result<Option<BoundKey>> {
    match bound
    case None => Ok(None)
    case Some(b) =>
      match NumericKey(b.value)
      case None => Err
      case Some(k) => Ok(Some(BoundKey(k, b.inclusive)))
  }

  function ValidateBounds(lower: Option<Bound>, upper: Option<Bound>, cursor: Option<PropValue>): Result<Range> {
    if lower.None? && upper.None? then Err
    else
      match (ValidateBound(lower), ValidateBound(upper))
      case (Ok(l), Ok(u)) =>
        if cursor.Some? && NumericKey(cursor.value).None? then Err else Ok(Range(l, u, PairIsEmpty(l, u)))
      case _ => Err
  }

  predicate AboveLower(k: Key, lower: Option<BoundKey>) {
    match lower
    case None => true
    case Some(b) =>
      var order := CompareKeys(k, b.key);
      if b.inclusive then order != Less else order == Greater
  }

  predicate BelowUpper(k: Key, upper: Option<BoundKey>) {
    match upper
    case None => true
    case Some(b) =>
      var order := CompareKeys(k, b.key);
      if b.inclusive then order != Greater else order == Less
  }

  predicate KeyWithin(k: Key, range: Range) {
    !range.isEmpty && AboveLower(k, range.lower) && BelowUpper(k, range.upper)
  }

  function MaxLower(left: Option<BoundKey>, right: Option<BoundKey>): Option<BoundKey> {
    match (left, right)
    case (Some(l), Some(r)) =>
      (match CompareKeys(l.key, r.key)
       case Less => Some(r)
       case Greater => Some(l)
       case Equal => Some(BoundKey(l.key, l.inclusive && r.inclusive)))
    case (Some(b), None) => Some(b)
    case (None, r) => r
  }

  function MinUpper(left: Option<BoundKey>, right: Option<BoundKey>): Option<BoundKey> {
    match (left, right)
    case (Some(l), Some(r)) =>
      (match CompareKeys(l.key, r.key)
       case Less => Some(l)
       case Greater => Some(r)
       case Equal => Some(BoundKey(l.key, l.inclusive && r.inclusive)))
    case (Some(b), None) => Some(b)
    case (None, r) => r
  }

  function Intersect(left: Range, right: Range): Range {
    var lower, upper := MaxLower(left.lower, right.lower), MinUpper(left.upper, right.upper);
    Range(lower, upper, left.isEmpty || right.isEmpty || PairIsEmpty(lower, upper))
  }

  // ---- What the ranges mean ----

  /** The same bound on exact values. */
  predicate ValueAbove(units: int, lower: Option<Bound>) {
    lower.None? ||
    (Units(lower.value.value).Some? &&
     var limit := Units(lower.value.value).value; if lower.value.inclusive then limit <= units else limit < units)
  }

  predicate ValueBelow(units: int, upper: Option<Bound>) {
    upper.None? ||
    (Units(upper.value.value).Some? &&
     var limit := Units(upper.value.value).value; if upper.value.inclusive then units <= limit else units < limit)
  }

  lemma BoundMeans(v: PropValue, bound: Option<Bound>)
    requires Units(v).Some? && ValidateBound(bound).Ok?
    ensures NumericKey(v).Some?
    ensures AboveLower(NumericKey(v).value, ValidateBound(bound).value) <==> ValueAbove(Units(v).value, bound)
    ensures BelowUpper(NumericKey(v).value, ValidateBound(bound).value) <==> ValueBelow(Units(v).value, bound)
  {
    KeyMeans(v);
    if bound.Some? {
      KeyMeans(bound.value.value);
      CompareIsValueOrder(NumericKey(v).value, NumericKey(bound.value.value).value);
    }
  }

  /** Bounds are valid exactly when one is given, all are finite numbers and so is the cursor; then a
      value is within the range exactly when it lies between the bounds as a number. */
  lemma WithinMeans(lower: Option<Bound>, upper: Option<Bound>, cursor: Option<PropValue>, v: PropValue)
    requires Units(v).Some?
    ensures ValidateBounds(lower, upper, cursor).Ok? <==>
            && (lower.Some? || upper.Some?)
            && (lower.Some? ==> Units(lower.value.value).Some?)
            && (upper.Some? ==> Units(upper.value.value).Some?)
            && (cursor.Some? ==> Units(cursor.value).Some?)
    ensures ValidateBounds(lower, upper, cursor).Ok? ==>
              NumericKey(v).Some? &&
              (KeyWithin(NumericKey(v).value, ValidateBounds(lower, upper, cursor).value) <==>
               ValueAbove(Units(v).value, lower) && ValueBelow(Units(v).value, upper))
  {
    KeysOfBounds(lower, upper, cursor);
    if ValidateBounds(lower, upper, cursor).Ok? {
      BoundMeans(v, lower);
      BoundMeans(v, upper);
      WithinBounds(NumericKey(v).value, ValidateBound(lower).value, ValidateBound(upper).value);
    }
  }

  lemma KeysOfBounds(lower: Option<Bound>, upper: Option<Bound>, cursor: Option<PropValue>)
    ensures lower.Some? ==> (NumericKey(lower.value.value).Some? <==> Units(lower.value.value).Some?)
    ensures upper.Some? ==> (NumericKey(upper.value.value).Some? <==> Units(upper.value.value).Some?)
    ensures cursor.Some? ==> (NumericKey(cursor.value).Some? <==> Units(cursor.value).Some?)
  {
    if lower.Some? {
      KeyMeans(lower.value.value);
    }
    if upper.Some? {
      KeyMeans(upper.value.value);
    }
    if cursor.Some? {
      KeyMeans(cursor.value);
    }
  }

  /** Key comparison is an order of (class, rank, fraction) triples, whatever the keys are. */
  lemma CompareTransitive(a: Key, b: Key, c: Key)
    ensures CompareKeys(a, b) == Less ==> CompareKeys(b, a) == Greater
    ensures CompareKeys(a, b) == Equal ==> CompareKeys(a, c) == CompareKeys(b, c)
    ensures CompareKeys(a, b) == Less && CompareKeys(b, c) != Greater ==> CompareKeys(a, c) == Less
    ensures CompareKeys(a, b) == Greater && CompareKeys(b, c) != Less ==> CompareKeys(a, c) == Greater
  {
  }

  lemma EmptyHoldsNothing(k: Key, lower: Option<BoundKey>, upper: Option<BoundKey>)
    ensures PairIsEmpty(lower, upper) ==> !(AboveLower(k, lower) && BelowUpper(k, upper))
  {
    if lower.Some? && upper.Some? {
      CompareTransitive(k, lower.value.key, upper.value.key);
      CompareTransitive(lower.value.key, k, upper.value.key);
    }
  }

  lemma WithinBounds(k: Key, lower: Option<BoundKey>, upper: Option<BoundKey>)
    ensures KeyWithin(k, Range(lower, upper, PairIsEmpty(lower, upper))) <==> AboveLower(k, lower) && BelowUpper(k, upper)
  {
    EmptyHoldsNothing(k, lower, upper);
  }

  lemma MaxLowerMeans(k: Key, left: Option<BoundKey>, right: Option<BoundKey>)
    ensures AboveLower(k, MaxLower(left, right)) <==> AboveLower(k, left) && AboveLower(k, right)
  {
    if left.Some? && right.Some? {
      CompareTransitive(k, left.value.key, right.value.key);
      CompareTransitive(k, right.value.key, left.value.key);
      CompareTransitive(left.value.key, right.value.key, k);
      CompareTransitive(right.value.key, left.value.key, k);
    }
  }

  lemma MinUpperMeans(k: Key, left: Option<BoundKey>, right: Option<BoundKey>)
    ensures BelowUpper(k, MinUpper(left, right)) <==> BelowUpper(k, left) && BelowUpper(k, right)
  {
    if left.Some? && right.Some? {
      CompareTransitive(k, left.value.key, right.value.key);
      CompareTransitive(k, right.value.key, left.value.key);
      CompareTransitive(left.value.key, right.value.key, k);
      CompareTransitive(right.value.key, left.value.key, k);
    }
  }

  /** A key is within the intersection exactly when it is within both ranges. */
  lemma IntersectMeans(k: Key, left: Range, right: Range)
    ensures KeyWithin(k, Intersect(left, right)) <==> KeyWithin(k, left) && KeyWithin(k, right)
  {
    var lower, upper := MaxLower(left.lower, right.lower), MinUpper(left.upper, right.upper);
    MaxLowerMeans(k, left.lower, right.lower);
    MinUpperMeans(k, left.upper, right.upper);
    EmptyHoldsNothing(k, lower, upper);
  }

  // ---- Membership without validation ----

  /** The check against raw bounds: nothing when a key it needs does not exist. */
  function ValueWithin(v: PropValue, lower: Option<Bound>, upper: Option<Bound>): Option<bool> {
    match NumericKey(v)
    case None => None
    case Some(k) =>
      match ValidateBound(lower)
      case Err => None
      case Ok(l) =>
        if !AboveLower(k, l) then Some(false)
        else
          match ValidateBound(upper)
          case Err => None
          case Ok(u) => Some(BelowUpper(k, u))
  }

  /** When the raw check answers, the answer is the truth about the exact values. */
  lemma RawCheckMeans(lower: Option<Bound>, upper: Option<Bound>, v: PropValue)
    requires ValueWithin(v, lower, upper).Some?
    ensures Units(v).Some?
    ensures ValueWithin(v, lower, upper).value <==> ValueAbove(Units(v).value, lower) && ValueBelow(Units(v).value, upper)
  {
    KeyMeans(v);
    BoundMeans(v, lower);
    if ValidateBound(upper).Ok? {
      BoundMeans(v, upper);
    }
  }

  /** With valid bounds the raw check always answers for a number, and as the validated one does. */
  lemma ChecksAgree(lower: Option<Bound>, upper: Option<Bound>, cursor: Option<PropValue>, v: PropValue)
    requires ValidateBounds(lower, upper, cursor).Ok?
    ensures ValueWithin(v, lower, upper) ==
            match NumericKey(v)
            case None => None
            case Some(k) => Some(KeyWithin(k, ValidateBounds(lower, upper, cursor).value))
  {
    if NumericKey(v).Some? {
      WithinBounds(NumericKey(v).value, ValidateBound(lower).value, ValidateBound(upper).value);
    }
  }
}
