/** Edge weights as order-preserving keys, and the sorted metadata indexes. */
module EdgeMetadata {
  import opened BinaryNumbers
  import opened Bytes

  type Bits32 = x: nat | x < 0x1_0000_0000

  const SIGN: nat := 0x8000_0000
  const HIDDEN: nat := 0x80_0000
  const INFINITY: nat := 0x7F80_0000

  // ---- Binary32, section 3.4 of IEEE 754-2019 ----

  function WithoutSign(bits: Bits32): nat { bits % SIGN }

  predicate IsNegative(bits: Bits32) { bits >= SIGN }

  predicate IsNaN(bits: Bits32) { WithoutSign(bits) > INFINITY }

  /** The magnitude in units of the least subnormal number; infinity gets one no finite number reaches. */
  function Magnitude(m: nat): nat {
    if m / HIDDEN == 0 then m % HIDDEN else (HIDDEN + m % HIDDEN) * Pow2(m / HIDDEN - 1)
  }

  function Value(bits: Bits32): int {
    Signed(IsNegative(bits), Magnitude(WithoutSign(bits)))
  }

  /** The comparison of two floats: false whenever one is a NaN, and the two zeros are equal. */
  predicate FloatLess(a: Bits32, b: Bits32) { !IsNaN(a) && !IsNaN(b) && Value(a) < Value(b) }

  predicate FloatAtMost(a: Bits32, b: Bits32) { !IsNaN(a) && !IsNaN(b) && Value(a) <= Value(b) }

  // ---- The key ----

  function EncodeWeightKey(weight: Bits32): Option<Bits32> {
    if IsNaN(weight) then None
    else
      var normalized := if WithoutSign(weight) == 0 then 0 else weight;
      Some(if IsNegative(normalized) then 0xFFFF_FFFF - normalized else normalized + SIGN)
  }

  lemma MagnitudeGrows(m: nat, n: nat)
    requires m < n
    ensures Magnitude(m) < Magnitude(n)
  {
    var e, e', f, f' := m / HIDDEN, n / HIDDEN, m % HIDDEN, n % HIDDEN;
    assert m == e * HIDDEN + f && n == e' * HIDDEN + f';
    if e == e' {
      if e > 0 {
        TimesMonotone(HIDDEN + f, HIDDEN + f', Pow2(e - 1));
      }
    } else {
      var low := if e == 0 then 1 else Pow2(e - 1);
      assert Magnitude(m) < (2 * HIDDEN) * low by {
        if e > 0 {
          TimesMonotone(HIDDEN + f, 2 * HIDDEN, low);
        }
      }
      NextExponent(e, e', f');
    }
  }

  lemma NextExponent(e: nat, e': nat, f': nat)
    requires e < e'
    ensures e > 0 ==> (2 * HIDDEN) * Pow2(e - 1) <= (HIDDEN + f') * Pow2(e' - 1)
    ensures HIDDEN <= (HIDDEN + f') * Pow2(e' - 1)
  {
    var high := Pow2(e' - 1);
    if e > 0 {
      Pow2Grows(e - 1, e' - 1);
    }
    assert (HIDDEN + f') * high == HIDDEN * high + f' * high;
  }

  lemma ZeroMagnitude(m: nat)
    ensures Magnitude(m) == 0 <==> m == 0
  {
    if m > 0 {
      MagnitudeGrows(0, m);
    }
  }

  lemma MagnitudeOrder(m: nat, n: nat)
    ensures m < n <==> Magnitude(m) < Magnitude(n)
    ensures m == n <==> Magnitude(m) == Magnitude(n)
  {
    if m < n {
      MagnitudeGrows(m, n);
    } else if n < m {
      MagnitudeGrows(n, m);
    }
  }

  /** The key of a sign and a magnitude field. */
  function KeyOfParts(negative: bool, m: nat): int {
    if m == 0 then SIGN else if negative then 0x7FFF_FFFF - m else m + SIGN
  }

  function Signed(negative: bool, x: nat): int { if negative then -(x as int) else x }

  lemma PartsOrder(na: bool, ma: nat, xa: nat, nb: bool, mb: nat, xb: nat)
    requires ma <= INFINITY && mb <= INFINITY
    requires (xa == 0 <==> ma == 0) && (xb == 0 <==> mb == 0)
    requires (ma < mb <==> xa < xb) && (mb < ma <==> xb < xa)
    ensures KeyOfParts(na, ma) < KeyOfParts(nb, mb) <==> Signed(na, xa) < Signed(nb, xb)
    ensures KeyOfParts(na, ma) == KeyOfParts(nb, mb) <==> Signed(na, xa) == Signed(nb, xb)
  {
  }

  lemma KeyParts(a: Bits32)
    requires !IsNaN(a)
    ensures EncodeWeightKey(a).Some? && EncodeWeightKey(a).value == KeyOfParts(IsNegative(a), WithoutSign(a))
  {
  }

  /** There is a key for every weight but NaN, and keys are ordered as the weights are, infinities
      included; the two zeros share one key. */
  lemma KeyOrderIsWeightOrder(a: Bits32, b: Bits32)
    ensures EncodeWeightKey(a).Some? <==> !IsNaN(a)
    ensures !IsNaN(a) && !IsNaN(b) ==>
              && (EncodeWeightKey(a).value < EncodeWeightKey(b).value <==> FloatLess(a, b))
              && (EncodeWeightKey(a) == EncodeWeightKey(b) <==> Value(a) == Value(b))
  {
    ZeroMagnitude(WithoutSign(a));
    ZeroMagnitude(WithoutSign(b));
    MagnitudeOrder(WithoutSign(a), WithoutSign(b));
    MagnitudeOrder(WithoutSign(b), WithoutSign(a));
    if !IsNaN(a) && !IsNaN(b) {
      KeyParts(a);
      KeyParts(b);
      PartsOrder(IsNegative(a), WithoutSign(a), Magnitude(WithoutSign(a)),
                 IsNegative(b), WithoutSign(b), Magnitude(WithoutSign(b)));
    }
  }

  // ---- Bounds ----

  datatype Bounds<T> = Bounds(lower: Option<T>, lowerInclusive: bool, upper: Option<T>, upperInclusive: bool)

  predicate I64MatchesBounds(value: int, bounds: Bounds<int>) {
    if bounds.lower.Some? && (if bounds.lowerInclusive then value < bounds.lower.value else value <= bounds.lower.value)
    then false
    else if bounds.upper.Some? &&
            (if bounds.upperInclusive then value > bounds.upper.value else value >= bounds.upper.value)
    then false
    else true
  }

  predicate WeightMatchesBounds(weight: Bits32, bounds: Bounds<Bits32>) {
    if IsNaN(weight) then false
    else if bounds.lower.Some? &&
            (if bounds.lowerInclusive then FloatLess(weight, bounds.lower.value) else FloatAtMost(weight, bounds.lower.value))
    then false
    else if bounds.upper.Some? &&
            (if bounds.upperInclusive then FloatLess(bounds.upper.value, weight) else FloatAtMost(bounds.upper.value, weight))
    then false
    else true
  }

  function BoundKey(bound: Option<Bits32>): Option<int> {
    if bound.Some? && EncodeWeightKey(bound.value).Some? then Some(EncodeWeightKey(bound.value).value) else None
  }

  /** The same bounds on keys: one that is a NaN bounds nothing. */
  function KeyBounds(bounds: Bounds<Bits32>): Bounds<int> {
    bounds.(lower := BoundKey(bounds.lower), upper := BoundKey(bounds.upper))
  }

  /** A weight matches its bounds exactly when it has a key and the key lies between the keys of the
      bounds. A bound that is a NaN rejects nothing. */
  lemma WeightMatchesAsKey(weight: Bits32, bounds: Bounds<Bits32>)
    ensures WeightMatchesBounds(weight, bounds) <==>
            EncodeWeightKey(weight).Some? && I64MatchesBounds(EncodeWeightKey(weight).value, KeyBounds(bounds))
  {
    if bounds.lower.Some? {
      KeyOrderIsWeightOrder(weight, bounds.lower.value);
    }
    if bounds.upper.Some? {
      KeyOrderIsWeightOrder(bounds.upper.value, weight);
    }
  }

  // ---- The indexes ----

  datatype Entry = Entry(labelId: nat, key: int, id: nat)

  predicate EntryAtMost(a: Entry, b: Entry) {
    || a.labelId < b.labelId
    || (a.labelId == b.labelId && (a.key < b.key || (a.key == b.key && a.id <= b.id)))
  }

  ghost predicate SortedEntries(entries: seq<Entry>) {
    forall i, j | 0 <= i < j < |entries| :: EntryAtMost(entries[i], entries[j])
  }

  lemma Inserted(entries: seq<Entry>, k: nat, e: Entry)
    requires SortedEntries(entries) && k <= |entries|
    requires forall i | 0 <= i < k :: EntryAtMost(entries[i], e)
    requires k < |entries| ==> EntryAtMost(e, entries[k])
    ensures SortedEntries(entries[..k] + [e] + entries[k..])
  {
    var r := entries[..k] + [e] + entries[k..];
    forall i | k <= i < |entries|
      ensures EntryAtMost(e, entries[i])
    {
      assert i == k || EntryAtMost(entries[k], entries[i]);
    }
    forall i, j | 0 <= i < j < |r|
      ensures EntryAtMost(r[i], r[j])
    {
      assert r[i] == if i < k then entries[i] else if i == k then e else entries[i - 1];
      assert r[j] == if j < k then entries[j] else if j == k then e else entries[j - 1];
    }
  }

  method InsertEntry(entries: seq<Entry>, e: Entry) returns (r: seq<Entry>)
    requires SortedEntries(entries)
    ensures SortedEntries(r) && multiset(r) == multiset(entries) + multiset{e}
  {
    var k := 0;
    while k < |entries| && EntryAtMost(entries[k], e)
      invariant 0 <= k <= |entries|
      invariant forall i | 0 <= i < k :: EntryAtMost(entries[i], e)
    {
      k := k + 1;
    }
    Inserted(entries, k, e);
    assert entries == entries[..k] + entries[k..];
    r := entries[..k] + [e] + entries[k..];
  }

  method SortEntries(entries: seq<Entry>) returns (r: seq<Entry>)
    ensures SortedEntries(r) && multiset(r) == multiset(entries)
  {
    r := [];
    for k := 0 to |entries|
      invariant SortedEntries(r) && multiset(r) == multiset(entries[..k])
    {
      assert entries[..k + 1] == entries[..k] + [entries[k]];
      r := InsertEntry(r, entries[k]);
    }
    assert entries[..|entries|] == entries;
  }

  datatype Edge = Edge(id: nat, labelId: nat, updatedAt: int, weight: Bits32, validFrom: int, validTo: int)

  function WeightEntries(edges: seq<Edge>): seq<Entry> {
    if edges == [] then []
    else
      var e := edges[|edges| - 1];
      var key := EncodeWeightKey(e.weight);
      WeightEntries(edges[..|edges| - 1]) + if key.Some? then [Entry(e.labelId, key.value, e.id)] else []
  }

  datatype Column = UpdatedAt | ValidFrom | ValidTo

  function Time(e: Edge, column: Column): int {
    match column
    case UpdatedAt => e.updatedAt
    case ValidFrom => e.validFrom
    case ValidTo => e.validTo
  }

  function TimeEntries(edges: seq<Edge>, column: Column): seq<Entry> {
    seq(|edges|, i requires 0 <= i < |edges| => Entry(edges[i].labelId, Time(edges[i], column), edges[i].id))
  }

  /** The entries are those of the edges, in any order. */
  ghost predicate HasTimes(entries: seq<Entry>, edges: seq<Edge>, column: Column) {
    multiset(entries) == multiset(TimeEntries(edges, column))
  }

  ghost predicate HasWeights(entries: seq<Entry>, edges: seq<Edge>) {
    multiset(entries) == multiset(WeightEntries(edges))
  }

  lemma PushedTime(entries: seq<Entry>, edges: seq<Edge>, e: Edge, column: Column)
    requires HasTimes(entries, edges, column)
    ensures HasTimes(entries + [Entry(e.labelId, Time(e, column), e.id)], edges + [e], column)
  {
    assert TimeEntries(edges + [e], column) == TimeEntries(edges, column) + [Entry(e.labelId, Time(e, column), e.id)];
  }

  lemma PushedWeight(entries: seq<Entry>, edges: seq<Edge>, e: Edge)
    requires HasWeights(entries, edges)
    ensures var key := EncodeWeightKey(e.weight);
            HasWeights(if key.Some? then entries + [Entry(e.labelId, key.value, e.id)] else entries, edges + [e])
  {
    assert (edges + [e])[..|edges|] == edges;
  }

  datatype Indexes = Indexes(weight: seq<Entry>, updatedAt: seq<Entry>, validFrom: seq<Entry>, validTo: seq<Entry>)

  /** Every edge is in every index once, but for the weight index when its weight is a NaN. */
  ghost predicate IndexesOf(x: Indexes, edges: seq<Edge>) {
    && HasWeights(x.weight, edges)
    && HasTimes(x.updatedAt, edges, UpdatedAt)
    && HasTimes(x.validFrom, edges, ValidFrom)
    && HasTimes(x.validTo, edges, ValidTo)
  }

  function WithEdge(x: Indexes, e: Edge): Indexes {
    var key := EncodeWeightKey(e.weight);
    Indexes(if key.Some? then x.weight + [Entry(e.labelId, key.value, e.id)] else x.weight,
            x.updatedAt + [Entry(e.labelId, Time(e, UpdatedAt), e.id)],
            x.validFrom + [Entry(e.labelId, Time(e, ValidFrom), e.id)],
            x.validTo + [Entry(e.labelId, Time(e, ValidTo), e.id)])
  }

  lemma PushedEdge(x: Indexes, edges: seq<Edge>, e: Edge)
    requires IndexesOf(x, edges)
    ensures IndexesOf(WithEdge(x, e), edges + [e])
  {
    PushedWeight(x.weight, edges, e);
    PushedTime(x.updatedAt, edges, e, UpdatedAt);
    PushedTime(x.validFrom, edges, e, ValidFrom);
    PushedTime(x.validTo, edges, e, ValidTo);
  }

  class IndexEntries {
    var weight: seq<Entry>
    var updatedAt: seq<Entry>
    var validFrom: seq<Entry>
    var validTo: seq<Entry>

    constructor ()
      ensures IndexesOf(Contents(), [])
    {
      weight, updatedAt, validFrom, validTo := [], [], [], [];
    }

    ghost function Contents(): Indexes
      reads this
    {
      Indexes(weight, updatedAt, validFrom, validTo)
    }

    method Push(e: Edge)
      modifies this
      ensures Contents() == WithEdge(old(Contents()), e)
    {
      var key := EncodeWeightKey(e.weight);
      if key.Some? {
        weight := weight + [Entry(e.labelId, key.value, e.id)];
      }
      updatedAt := updatedAt + [Entry(e.labelId, e.updatedAt, e.id)];
      validFrom := validFrom + [Entry(e.labelId, e.validFrom, e.id)];
      validTo := validTo + [Entry(e.labelId, e.validTo, e.id)];
    }

    method SortAll(ghost edges: seq<Edge>)
      requires IndexesOf(Contents(), edges)
      modifies this
      ensures IndexesOf(Contents(), edges)
      ensures SortedEntries(weight) && SortedEntries(updatedAt) && SortedEntries(validFrom) && SortedEntries(validTo)
    {
      weight := SortEntries(weight);
      updatedAt := SortEntries(updatedAt);
      validFrom := SortEntries(validFrom);
      validTo := SortEntries(validTo);
    }
  }

  lemma {:induction false} WeightEntryOf(edges: seq<Edge>, entry: Entry)
    ensures entry in WeightEntries(edges) <==>
            exists e | e in edges :: EncodeWeightKey(e.weight).Some? &&
                                     entry == Entry(e.labelId, EncodeWeightKey(e.weight).value, e.id)
    decreases |edges|
  {
    if edges != [] {
      var last := |edges| - 1;
      WeightEntryOf(edges[..last], entry);
      assert edges == edges[..last] + [edges[last]];
    }
  }

  predicate Selected(entry: Entry, labelId: nat, bounds: Bounds<int>) {
    entry.labelId == labelId && I64MatchesBounds(entry.key, bounds)
  }

  /** In a sorted index the entries of one label within bounds are one unbroken run. */
  lemma SelectionIsOneRun(index: seq<Entry>, labelId: nat, bounds: Bounds<int>, i: nat, j: nat, k: nat)
    requires SortedEntries(index) && i <= j <= k < |index|
    requires Selected(index[i], labelId, bounds) && Selected(index[k], labelId, bounds)
    ensures Selected(index[j], labelId, bounds)
  {
    if i < j {
      assert EntryAtMost(index[i], index[j]);
    }
    if j < k {
      assert EntryAtMost(index[j], index[k]);
    }
  }

  /** A scan of the sorted weight index by keys finds exactly the edges whose weights match. */
  lemma WeightScanIsExact(index: seq<Entry>, edges: seq<Edge>, labelId: nat, bounds: Bounds<Bits32>, id: nat)
    requires HasWeights(index, edges)
    ensures (exists entry | entry in index :: Selected(entry, labelId, KeyBounds(bounds)) && entry.id == id) <==>
            (exists e | e in edges :: e.labelId == labelId && e.id == id && WeightMatchesBounds(e.weight, bounds))
  {
    if entry :| entry in index && Selected(entry, labelId, KeyBounds(bounds)) && entry.id == id {
      assert entry in multiset(index);
      WeightEntryOf(edges, entry);
      var e :| e in edges && EncodeWeightKey(e.weight).Some? &&
               entry == Entry(e.labelId, EncodeWeightKey(e.weight).value, e.id);
      WeightMatchesAsKey(e.weight, bounds);
    }
    if e :| e in edges && e.labelId == labelId && e.id == id && WeightMatchesBounds(e.weight, bounds) {
      WeightMatchesAsKey(e.weight, bounds);
      var entry := Entry(e.labelId, EncodeWeightKey(e.weight).value, e.id);
      WeightEntryOf(edges, entry);
      assert entry in multiset(WeightEntries(edges));
      assert entry in index;
    }
  }
}
