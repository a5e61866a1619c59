/** The two files of a sparse posting index: rows of dimensions, and the postings they point at. */
module SparseIndex {
  import opened Bytes

  const ROW_SIZE := 16
  const POSTING_SIZE := 12

  datatype Row = Row(dimension: nat, offset: nat, count: nat)

  datatype Posting = Posting(node: nat, weight: nat)

  // ---- Reading rows and postings ----

  function DimensionAt(index: Data, i: nat): Option<nat> { ReadAt(index, 8 + i * ROW_SIZE, 4) }

  function RowAt(index: Data, i: nat): Option<Row> {
    var base := 8 + i * ROW_SIZE;
    match (ReadAt(index, base, 4), ReadAt(index, base + 4, 8), ReadAt(index, base + 12, 4))
    case (Some(d), Some(offset), Some(count)) => Some(Row(d, offset, count))
    case _ => None
  }

  function PostingAt(postings: Data, at: nat): Option<Posting> {
    match (ReadAt(postings, at, 8), ReadAt(postings, at + 8, 4))
    case (Some(node), Some(weight)) => Some(Posting(node, weight))
    case _ => None
  }

  function IndexCount(index: Data): Option<nat> {
    match ReadAt(index, 0, 8)
    case Some(n) => if |index| == 8 + n * ROW_SIZE then Some(n) else None
    case None => None
  }

  // ---- The shape check ----

  predicate RowFits(row: Row, previous: Option<nat>, next: nat, size: nat) {
    && row.count > 0
    && (previous.Some? ==> previous.value < row.dimension)
    && row.offset == next
    && row.offset + row.count * POSTING_SIZE <= size
  }

  /** Rows from i on follow each other: ascending dimensions, and postings end to end to the last byte. */
  predicate RowsFit(index: Data, count: nat, i: nat, previous: Option<nat>, next: nat, size: nat)
    decreases count - i
  {
    if i >= count then next == size
    else
      match RowAt(index, i)
      case None => false
      case Some(row) =>
        RowFits(row, previous, next, size) &&
        RowsFit(index, count, i + 1, Some(row.dimension), next + row.count * POSTING_SIZE, size)
  }

  predicate ValidShape(index: Data, postings: Data) {
    if index == [] then postings == []
    else
      postings != [] && IndexCount(index).Some? && RowsFit(index, IndexCount(index).value, 0, None, 0, |postings|)
  }

  method ValidateShape(index: Data, postings: Data) returns (ok: bool)
    ensures ok <==> ValidShape(index, postings)
  {
    if index == [] {
      return postings == [];
    }
    var count := IndexCount(index);
    if postings == [] || count.None? {
      return false;
    }
    var previous: Option<nat>, next: nat := None, 0;
    for i := 0 to count.value
      invariant RowsFit(index, count.value, i, previous, next, |postings|) ==
                RowsFit(index, count.value, 0, None, 0, |postings|)
    {
      var row := RowAt(index, i);
      if row.None? || !RowFits(row.value, previous, next, |postings|) {
        return false;
      }
      previous, next := Some(row.value.dimension), next + row.value.count * POSTING_SIZE;
    }
    return next == |postings|;
  }

  // ---- Rows in order ----

  /** The dimension of a row that is there. */
  function Dimension(index: Data, i: nat): nat {
    match DimensionAt(index, i)
    case Some(d) => d
    case None => 0
  }

  /** All rows can be read and their dimensions ascend strictly. */
  ghost predicate Ascending(index: Data, count: nat) {
    && (forall i | 0 <= i < count :: RowAt(index, i).Some?)
    && (forall i, j | 0 <= i < j < count :: Dimension(index, i) < Dimension(index, j))
  }

  ghost predicate AscendingFrom(index: Data, count: nat, i: nat, previous: Option<nat>) {
    && (forall k | i <= k < count :: RowAt(index, k).Some?)
    && (forall k | i <= k < count :: previous.Some? ==> previous.value < Dimension(index, k))
    && (forall j, k | i <= j < k < count :: Dimension(index, j) < Dimension(index, k))
  }

  lemma {:induction false} FittingRowsAscend(index: Data, count: nat, i: nat, previous: Option<nat>, next: nat, size: nat)
    requires RowsFit(index, count, i, previous, next, size)
    ensures AscendingFrom(index, count, i, previous)
    decreases count - i
  {
    if i < count {
      var row := RowAt(index, i).value;
      FittingRowsAscend(index, count, i + 1, Some(row.dimension), next + row.count * POSTING_SIZE, size);
      assert Dimension(index, i) == row.dimension;
    }
  }

  lemma ValidRowsAscend(index: Data, postings: Data)
    requires ValidShape(index, postings) && index != []
    ensures Ascending(index, IndexCount(index).value)
  {
    FittingRowsAscend(index, IndexCount(index).value, 0, None, 0, |postings|);
  }

  // ---- Binary searches ----

  /** The row where its dimension was found. */
  function FoundRow(index: Data, i: nat): Result<Option<Row>> {
    match RowAt(index, i)
    case None => Err
    case Some(row) => Ok(Some(row))
  }

  function FindFrom(index: Data, d: nat, left: nat, right: nat): Result<Option<Row>>
    decreases right - left
  {
    if left >= right then Ok(None)
    else
      var mid := left + (right - left) / 2;
      match DimensionAt(index, mid)
      case None => Err
      case Some(current) =>
        if current < d then FindFrom(index, d, mid + 1, right)
        else if current > d then FindFrom(index, d, left, mid)
        else FoundRow(index, mid)
  }

  method FindDimension(index: Data, count: nat, d: nat) returns (r: Result<Option<Row>>)
    ensures r == FindFrom(index, d, 0, count)
  {
    var left, right := 0, count;
    while left < right
      invariant 0 <= left && 0 <= right
      invariant FindFrom(index, d, left, right) == FindFrom(index, d, 0, count)
    {
      var mid := left + (right - left) / 2;
      var current := DimensionAt(index, mid);
      if current.None? {
        return Err;
      }
      if current.value < d {
        left := mid + 1;
      } else if current.value > d {
        right := mid;
      } else {
        return FoundRow(index, mid);
      }
    }
    return Ok(None);
  }

  /** Where the first row is whose dimension is not below the target, or not at most the target. */
  function BoundFrom(index: Data, target: nat, inclusive: bool, lo: nat, hi: nat): Result<nat>
    decreases hi - lo
  {
    if lo >= hi then Ok(lo)
    else
      var mid := lo + (hi - lo) / 2;
      match DimensionAt(index, mid)
      case None => Err
      case Some(key) =>
        if key < target || (inclusive && key == target) then BoundFrom(index, target, inclusive, mid + 1, hi)
        else BoundFrom(index, target, inclusive, lo, mid)
  }

  method LowerBound(index: Data, count: nat, target: nat) returns (r: Result<nat>)
    ensures r == BoundFrom(index, target, false, 0, count)
  {
    var lo, hi := 0, count;
    while lo < hi
      invariant 0 <= lo && 0 <= hi
      invariant BoundFrom(index, target, false, lo, hi) == BoundFrom(index, target, false, 0, count)
    {
      var mid := lo + (hi - lo) / 2;
      var key := DimensionAt(index, mid);
      if key.None? {
        return Err;
      }
      if key.value < target {
        lo := mid + 1;
      } else {
        hi := mid;
      }
    }
    return Ok(lo);
  }

  method UpperBound(index: Data, count: nat, target: nat) returns (r: Result<nat>)
    ensures r == BoundFrom(index, target, true, 0, count)
  {
    var lo, hi := 0, count;
    while lo < hi
      invariant 0 <= lo && 0 <= hi
      invariant BoundFrom(index, target, true, lo, hi) == BoundFrom(index, target, true, 0, count)
    {
      var mid := lo + (hi - lo) / 2;
      var key := DimensionAt(index, mid);
      if key.None? {
        return Err;
      }
      if key.value <= target {
        lo := mid + 1;
      } else {
        hi := mid;
      }
    }
    return Ok(lo);
  }

  /** The row with this dimension, if there is one. */
  ghost predicate IsRowOf(index: Data, count: nat, d: nat, found: Option<Row>) {
    match found
    case Some(row) => row.dimension == d && exists i: nat | i < count :: RowAt(index, i) == Some(row)
    case None => forall i | 0 <= i < count :: Dimension(index, i) != d
  }

  lemma {:induction false} SearchFinds(index: Data, count: nat, d: nat, left: nat, right: nat)
    requires Ascending(index, count) && left <= right <= count
    requires forall i | 0 <= i < left :: Dimension(index, i) < d
    requires forall i | right <= i < count :: Dimension(index, i) > d
    ensures FindFrom(index, d, left, right).Ok?
    ensures IsRowOf(index, count, d, FindFrom(index, d, left, right).value)
    decreases right - left
  {
    if left < right {
      var mid := left + (right - left) / 2;
      assert RowAt(index, mid).Some?;
      if Dimension(index, mid) < d {
        SearchFinds(index, count, d, mid + 1, right);
      } else if Dimension(index, mid) > d {
        SearchFinds(index, count, d, left, mid);
      }
    }
  }

  /** The binary search finds the row of a dimension exactly when there is one. */
  lemma FindDimensionFinds(index: Data, count: nat, d: nat)
    requires Ascending(index, count)
    ensures FindFrom(index, d, 0, count).Ok?
    ensures IsRowOf(index, count, d, FindFrom(index, d, 0, count).value)
  {
    SearchFinds(index, count, d, 0, count);
  }

  lemma FoundIsThere(index: Data, count: nat, d: nat)
    requires Ascending(index, count)
    ensures FindFrom(index, d, 0, count).Ok?
    ensures FindFrom(index, d, 0, count).value.Some? ==> exists i: nat :: i < count && Dimension(index, i) == d
  {
    FindDimensionFinds(index, count, d);
    if FindFrom(index, d, 0, count).value.Some? {
      var i: nat :| i < count && RowAt(index, i) == FindFrom(index, d, 0, count).value;
      assert Dimension(index, i) == d;
    }
  }

  lemma RowFound(index: Data, count: nat, i: nat)
    requires Ascending(index, count) && i < count
    ensures FindFrom(index, Dimension(index, i), 0, count) == Ok(RowAt(index, i))
  {
    var d := Dimension(index, i);
    FindDimensionFinds(index, count, d);
    assert RowAt(index, i).Some? && Dimension(index, i) == d;
    var row := FindFrom(index, d, 0, count).value.value;
    var j: nat :| j < count && RowAt(index, j) == Some(row);
    assert Dimension(index, j) == d;
  }

  lemma {:induction false} BoundSplits(index: Data, count: nat, target: nat, inclusive: bool, lo: nat, hi: nat)
    requires Ascending(index, count) && lo <= hi <= count
    requires forall i | 0 <= i < lo :: Dimension(index, i) < target || (inclusive && Dimension(index, i) == target)
    requires forall i | hi <= i < count :: Dimension(index, i) > target || (!inclusive && Dimension(index, i) == target)
    ensures var r := BoundFrom(index, target, inclusive, lo, hi);
            && r.Ok? && r.value <= count
            && (forall i | 0 <= i < r.value :: Dimension(index, i) < target || (inclusive && Dimension(index, i) == target))
            && (forall i | r.value <= i < count :: Dimension(index, i) > target || (!inclusive && Dimension(index, i) == target))
    decreases hi - lo
  {
    if lo < hi {
      var mid := lo + (hi - lo) / 2;
      assert RowAt(index, mid).Some?;
      if Dimension(index, mid) < target || (inclusive && Dimension(index, mid) == target) {
        BoundSplits(index, count, target, inclusive, mid + 1, hi);
      } else {
        BoundSplits(index, count, target, inclusive, lo, mid);
      }
    }
  }
}
