/** Scoring a sparse query against a posting index, by seeking each dimension or by merging. */
module SparseScores {
  import opened BinaryNumbers
  import opened Bytes
  import opened SparseIndex

  /** Addition and multiplication of binary32 bit patterns, whatever they round to. */
  datatype Arithmetic = Arithmetic(add: (nat, nat) -> nat, mul: (nat, nat) -> nat)

  /** One (dimension, weight) pair after another. */
  type Sparse = seq<(nat, nat)>

  type ScoreMap = map<nat, nat>

  const ZERO := 0

  /** How a scan ended: the scores so far, and whether nothing was wrong. */
  datatype Outcome = Outcome(scores: ScoreMap, ok: bool)

  predicate StrictlyAscending(v: Sparse) {
    forall i, j | 0 <= i < j < |v| :: v[i].0 < v[j].0
  }

  // ---- One row ----

  predicate IsFiniteWeight(w: nat) { w % 0x8000_0000 < 0x7F80_0000 }

  predicate IsBelowZero(w: nat) { w >= 0x8000_0000 && w % 0x8000_0000 != 0 }

  predicate PostingOk(p: Posting, previous: Option<nat>) {
    IsFiniteWeight(p.weight) && !IsBelowZero(p.weight) && (previous.Some? ==> previous.value < p.node)
  }

  function OrZero(o: Option<nat>): nat {
    match o
    case Some(x) => x
    case None => ZERO
  }

  function ScoreOf(scores: ScoreMap, node: nat): Option<nat> {
    if node in scores then Some(scores[node]) else None
  }

  function Bumped(f: Arithmetic, score: Option<nat>, contribution: nat): nat { f.add(OrZero(score), contribution) }

  function AddPosting(f: Arithmetic, p: Posting, queryWeight: nat, scores: ScoreMap): ScoreMap {
    scores[p.node := Bumped(f, ScoreOf(scores, p.node), f.mul(queryWeight, p.weight))]
  }

  function AddPostings(f: Arithmetic, postings: Data, at: nat, n: nat, previous: Option<nat>, queryWeight: nat,
                       scores: ScoreMap): Outcome
    decreases n
  {
    if n == 0 then Outcome(scores, true)
    else
      match PostingAt(postings, at)
      case None => Outcome(scores, false)
      case Some(p) =>
        if !PostingOk(p, previous) then Outcome(scores, false)
        else AddPostings(f, postings, at + POSTING_SIZE, n - 1, Some(p.node), queryWeight,
                         AddPosting(f, p, queryWeight, scores))
  }

  function AddRow(f: Arithmetic, postings: Data, row: Row, queryWeight: nat, scores: ScoreMap): Outcome {
    if row.offset + row.count * POSTING_SIZE > |postings| then Outcome(scores, false)
    else AddPostings(f, postings, row.offset, row.count, None, queryWeight, scores)
  }

  // ---- The two strategies ----

  function Seek(f: Arithmetic, index: Data, postings: Data, count: nat, query: Sparse, scores: ScoreMap): Outcome
    decreases |query|
  {
    if query == [] then Outcome(scores, true)
    else
      match FindFrom(index, query[0].0, 0, count)
      case Err => Outcome(scores, false)
      case Ok(None) => Seek(f, index, postings, count, query[1..], scores)
      case Ok(Some(row)) =>
        var o := AddRow(f, postings, row, query[0].1, scores);
        if !o.ok then o else Seek(f, index, postings, count, query[1..], o.scores)
  }

  function Merge(f: Arithmetic, index: Data, postings: Data, query: Sparse, i: nat, end: nat, scores: ScoreMap): Outcome
    decreases |query| + (if i < end then end - i else 0)
  {
    if query == [] || i >= end then Outcome(scores, true)
    else
      match DimensionAt(index, i)
      case None => Outcome(scores, false)
      case Some(d) =>
        if d < query[0].0 then Merge(f, index, postings, query, i + 1, end, scores)
        else if d > query[0].0 then Merge(f, index, postings, query[1..], i, end, scores)
        else
          match RowAt(index, i)
          case None => Outcome(scores, false)
          case Some(row) =>
            var o := AddRow(f, postings, row, query[0].1, scores);
            if !o.ok then o else Merge(f, index, postings, query[1..], i + 1, end, o.scores)
  }

  // ---- Choosing ----

  const RANDOM_ACCESS_PENALTY := 4
  const WORD_MAX := 0xFFFF_FFFF_FFFF_FFFF

  function CeilLog2(n: nat): nat { if n <= 1 then 0 else BitLength(n - 1) }

  function SaturatingMul(a: nat, b: nat): nat { if a * b > WORD_MAX then WORD_MAX else a * b }

  datatype Strategy = SeekPerDimension | MergeWalk(start: nat, end: nat)

  function Choose(index: Data, count: nat, dims: nat, low: nat, high: nat): Result<Strategy> {
    if dims <= 2 || count <= 1 then Ok(SeekPerDimension)
    else
      var start :- BoundFrom(index, low, false, 0, count);
      var end :- BoundFrom(index, high, true, 0, count);
      var width := if end < start then 0 else end - start;
      var span := if width < dims then dims else width;
      var cost := SaturatingMul(SaturatingMul(dims, CeilLog2(count)), RANDOM_ACCESS_PENALTY);
      Ok(if cost <= span then SeekPerDimension else MergeWalk(start, end))
  }

  /** The least number of halvings that a search among n rows may need. */
  lemma CeilLog2Means(n: nat)
    requires n > 1
    ensures CeilLog2(n) > 0 && Pow2(CeilLog2(n) - 1) < n <= Pow2(CeilLog2(n))
  {
    BitLengthBounds(n - 1);
  }

  function Accumulate(f: Arithmetic, index: Data, postings: Data, query: Sparse, scores: ScoreMap): Outcome {
    if index == [] || postings == [] || query == [] then Outcome(scores, true)
    else
      match ReadAt(index, 0, 8)
      case None => Outcome(scores, false)
      case Some(count) =>
        match Choose(index, count, |query|, query[0].0, query[|query| - 1].0)
        case Err => Outcome(scores, false)
        case Ok(SeekPerDimension) => Seek(f, index, postings, count, query, scores)
        case Ok(MergeWalk(start, end)) => Merge(f, index, postings, query, start, end, scores)
  }

  // ---- The loops ----

  class Scores {
    var entries: ScoreMap

    constructor ()
      ensures entries == map[]
    {
      entries := map[];
    }

    method AddAll(f: Arithmetic, postings: Data, row: Row, queryWeight: nat) returns (ok: bool)
      modifies this
      ensures Outcome(entries, ok) == AddRow(f, postings, row, queryWeight, old(entries))
    {
      if row.offset + row.count * POSTING_SIZE > |postings| {
        return false;
      }
      var at: nat, previous: Option<nat> := row.offset, None;
      for k := 0 to row.count
        invariant AddPostings(f, postings, at, row.count - k, previous, queryWeight, entries) ==
                  AddPostings(f, postings, row.offset, row.count, None, queryWeight, old(entries))
      {
        var p := PostingAt(postings, at);
        if p.None? || !PostingOk(p.value, previous) {
          return false;
        }
        entries := AddPosting(f, p.value, queryWeight, entries);
        previous, at := Some(p.value.node), at + POSTING_SIZE;
      }
      return true;
    }

    method SeekEach(f: Arithmetic, index: Data, postings: Data, count: nat, query: Sparse) returns (ok: bool)
      modifies this
      ensures Outcome(entries, ok) == Seek(f, index, postings, count, query, old(entries))
    {
      for k := 0 to |query|
        invariant Seek(f, index, postings, count, query[k..], entries) ==
                  Seek(f, index, postings, count, query, old(entries))
      {
        assert query[k..][1..] == query[k + 1..];
        var found := FindDimension(index, count, query[k].0);
        if found.Err? {
          return false;
        }
        if found.value.Some? {
          var added := AddAll(f, postings, found.value.value, query[k].1);
          if !added {
            return false;
          }
        }
      }
      return true;
    }

    method MergeAll(f: Arithmetic, index: Data, postings: Data, query: Sparse, start: nat, end: nat) returns (ok: bool)
      modifies this
      ensures Outcome(entries, ok) == Merge(f, index, postings, query, start, end, old(entries))
    {
      var k, i: nat := 0, start;
      while k < |query| && i < end
        invariant 0 <= k <= |query|
        invariant Merge(f, index, postings, query[k..], i, end, entries) ==
                  Merge(f, index, postings, query, start, end, old(entries))
        decreases |query| - k, end - i
      {
        assert query[k..][1..] == query[k + 1..];
        var d := DimensionAt(index, i);
        if d.None? {
          return false;
        }
        if d.value < query[k].0 {
          i := i + 1;
        } else if d.value > query[k].0 {
          k := k + 1;
        } else {
          var row := RowAt(index, i);
          if row.None? {
            return false;
          }
          var added := AddAll(f, postings, row.value, query[k].1);
          if !added {
            return false;
          }
          k, i := k + 1, i + 1;
        }
      }
      return true;
    }

    method AccumulateScores(f: Arithmetic, index: Data, postings: Data, query: Sparse) returns (ok: bool)
      modifies this
      ensures Outcome(entries, ok) == Accumulate(f, index, postings, query, old(entries))
    {
      if index == [] || postings == [] || query == [] {
        return true;
      }
      var count := ReadAt(index, 0, 8);
      if count.None? {
        return false;
      }
      var strategy := ChooseStrategy(index, count.value, |query|, query[0].0, query[|query| - 1].0);
      match strategy
      case Err => return false;
      case Ok(SeekPerDimension) => ok := SeekEach(f, index, postings, count.value, query);
      case Ok(MergeWalk(start, end)) => ok := MergeAll(f, index, postings, query, start, end);
    }
  }

  // ---- What the choice means ----

  /** The rows a query from `low` to `high` can meet. */
  ghost function RowsBetween(index: Data, count: nat, low: nat, high: nat): set<nat> {
    set i: nat | i < count && low <= Dimension(index, i) <= high
  }

  /** Four row accesses for each halving of each search, or all that a 64-bit word can count. */
  ghost function SeekCost(dims: nat, count: nat): int {
    var cost := dims * CeilLog2(count) * RANDOM_ACCESS_PENALTY;
    if cost > WORD_MAX then WORD_MAX else cost
  }

  /** A merge walks exactly the rows the query can meet; seeking is chosen for a query or an index too
      small to bother, and when its cost is at most that walk, which passes as many rows as the query
      can meet and takes at least a step for each of its dimensions. */
  ghost predicate ChosenWell(index: Data, count: nat, dims: nat, low: nat, high: nat, s: Strategy) {
    var met := |RowsBetween(index, count, low, high)|;
    && (s.MergeWalk? ==> s.start <= s.end <= count
                         && forall i: nat :: s.start <= i < s.end <==> i in RowsBetween(index, count, low, high))
    && (s.SeekPerDimension? <==>
          dims <= 2 || count <= 1 || SeekCost(dims, count) <= met || SeekCost(dims, count) <= dims)
  }

  lemma {:induction false} IntervalSize(s: set<nat>, start: nat, end: nat)
    requires start <= end && forall i: nat :: i in s <==> start <= i < end
    ensures |s| == end - start
    decreases end - start
  {
    if start < end {
      IntervalSize(s - {start}, start + 1, end);
    } else {
      assert s == {};
    }
  }

  lemma SaturatesOnce(dims: nat, count: nat)
    ensures SaturatingMul(SaturatingMul(dims, CeilLog2(count)), RANDOM_ACCESS_PENALTY) == SeekCost(dims, count)
  {
  }

  lemma BoundsMeet(index: Data, count: nat, low: nat, high: nat) returns (start: nat, end: nat)
    requires Ascending(index, count) && low <= high
    ensures BoundFrom(index, low, false, 0, count) == Ok(start) && BoundFrom(index, high, true, 0, count) == Ok(end)
    ensures start <= end <= count
    ensures forall i: nat :: start <= i < end <==> i in RowsBetween(index, count, low, high)
  {
    BoundSplits(index, count, low, false, 0, count);
    BoundSplits(index, count, high, true, 0, count);
    start := BoundFrom(index, low, false, 0, count).value;
    end := BoundFrom(index, high, true, 0, count).value;
    SplitsMeet(index, count, low, high, start, end);
  }

  lemma SplitsMeet(index: Data, count: nat, low: nat, high: nat, start: nat, end: nat)
    requires low <= high && start <= count && end <= count
    requires forall i | 0 <= i < start :: Dimension(index, i) < low
    requires forall i | start <= i < count :: Dimension(index, i) >= low
    requires forall i | 0 <= i < end :: Dimension(index, i) <= high
    requires forall i | end <= i < count :: Dimension(index, i) > high
    ensures start <= end && forall i: nat :: start <= i < end <==> i in RowsBetween(index, count, low, high)
  {
    assert end == count || Dimension(index, end) > high;
  }

  lemma ChoiceMeans(index: Data, count: nat, dims: nat, low: nat, high: nat)
    requires Ascending(index, count) && low <= high
    ensures Choose(index, count, dims, low, high).Ok?
    ensures ChosenWell(index, count, dims, low, high, Choose(index, count, dims, low, high).value)
  {
    var start, end := BoundsMeet(index, count, low, high);
    IntervalSize(RowsBetween(index, count, low, high), start, end);
    SaturatesOnce(dims, count);
  }

  method ChooseStrategy(index: Data, count: nat, dims: nat, low: nat, high: nat) returns (r: Result<Strategy>)
    ensures r == Choose(index, count, dims, low, high)
    ensures Ascending(index, count) && low <= high ==> r.Ok? && ChosenWell(index, count, dims, low, high, r.value)
  {
    if Ascending(index, count) && low <= high {
      ChoiceMeans(index, count, dims, low, high);
    }
    if dims <= 2 || count <= 1 {
      return Ok(SeekPerDimension);
    }
    var start :- LowerBound(index, count, low);
    var end :- UpperBound(index, count, high);
    var width := if end < start then 0 else end - start;
    var span := if width < dims then dims else width;
    var cost := SaturatingMul(SaturatingMul(dims, CeilLog2(count)), RANDOM_ACCESS_PENALTY);
    return Ok(if cost <= span then SeekPerDimension else MergeWalk(start, end));
  }

  // ---- The strategies agree ----

  ghost predicate Misses(index: Data, count: nat, d: nat) {
    forall i: nat | i < count :: Dimension(index, i) != d
  }

  lemma SeekSkips(f: Arithmetic, index: Data, postings: Data, count: nat, query: Sparse, scores: ScoreMap)
    requires Ascending(index, count) && query != [] && Misses(index, count, query[0].0)
    ensures Seek(f, index, postings, count, query, scores) == Seek(f, index, postings, count, query[1..], scores)
  {
    FoundIsThere(index, count, query[0].0);
  }

  lemma {:induction false} NothingFound(f: Arithmetic, index: Data, postings: Data, count: nat, query: Sparse, scores: ScoreMap)
    requires Ascending(index, count)
    requires forall k | 0 <= k < |query| :: Misses(index, count, query[k].0)
    ensures Seek(f, index, postings, count, query, scores) == Outcome(scores, true)
    decreases |query|
  {
    if query != [] {
      SeekSkips(f, index, postings, count, query, scores);
      forall k | 0 <= k < |query[1..]|
        ensures Misses(index, count, query[1..][k].0)
      {
        assert query[1..][k] == query[k + 1];
      }
      NothingFound(f, index, postings, count, query[1..], scores);
    }
  }

  /** The rows still ahead of the merge are the only ones the rest of the query can meet. */
  ghost predicate OnlyAhead(index: Data, count: nat, query: Sparse, i: nat, end: nat) {
    && i <= count && end <= count
    && (forall j: nat, k | j < i && 0 <= k < |query| :: Dimension(index, j) < query[k].0)
    && (forall j: nat, k | end <= j < count && 0 <= k < |query| :: query[k].0 < Dimension(index, j))
  }

  /** What both strategies do on meeting a row of the first query dimension. */
  ghost predicate BothAdd(f: Arithmetic, index: Data, postings: Data, count: nat, query: Sparse, i: nat, end: nat,
                          scores: ScoreMap, o: Outcome)
    requires query != []
  {
    && Merge(f, index, postings, query, i, end, scores) ==
       (if !o.ok then o else Merge(f, index, postings, query[1..], i + 1, end, o.scores))
    && Seek(f, index, postings, count, query, scores) ==
       (if !o.ok then o else Seek(f, index, postings, count, query[1..], o.scores))
  }

  lemma MeetsRow(f: Arithmetic, index: Data, postings: Data, count: nat, query: Sparse, i: nat, end: nat, scores: ScoreMap)
    returns (o: Outcome)
    requires Ascending(index, count) && query != [] && i < count && i < end && Dimension(index, i) == query[0].0
    ensures BothAdd(f, index, postings, count, query, i, end, scores, o)
  {
    assert RowAt(index, i).Some?;
    RowFound(index, count, i);
    o := AddRow(f, postings, RowAt(index, i).value, query[0].1, scores);
  }

  lemma MergeSkips(f: Arithmetic, index: Data, postings: Data, count: nat, query: Sparse, i: nat, end: nat, scores: ScoreMap)
    requires Ascending(index, count) && query != [] && i < count && i < end
    ensures Dimension(index, i) < query[0].0 ==>
              Merge(f, index, postings, query, i, end, scores) == Merge(f, index, postings, query, i + 1, end, scores)
    ensures Dimension(index, i) > query[0].0 ==>
              Merge(f, index, postings, query, i, end, scores) == Merge(f, index, postings, query[1..], i, end, scores)
  {
    assert RowAt(index, i).Some?;
  }

  lemma NothingAhead(index: Data, count: nat, query: Sparse, i: nat, end: nat)
    requires OnlyAhead(index, count, query, i, end) && i >= end
    ensures forall k | 0 <= k < |query| :: Misses(index, count, query[k].0)
  {
    forall k, j: nat | 0 <= k < |query| && j < count
      ensures Dimension(index, j) != query[k].0
    {
      assert j < i || end <= j;
    }
  }

  lemma StaysAhead(index: Data, count: nat, query: Sparse, i: nat, end: nat)
    requires Ascending(index, count) && StrictlyAscending(query) && OnlyAhead(index, count, query, i, end)
    requires query != [] && i < end
    ensures Dimension(index, i) < query[0].0 ==> OnlyAhead(index, count, query, i + 1, end)
    ensures Dimension(index, i) > query[0].0 ==>
              OnlyAhead(index, count, query[1..], i, end) && Misses(index, count, query[0].0)
    ensures Dimension(index, i) == query[0].0 ==> OnlyAhead(index, count, query[1..], i + 1, end)
    ensures StrictlyAscending(query[1..])
  {
  }

  lemma {:induction false} MergeIsSeek(f: Arithmetic, index: Data, postings: Data, count: nat, query: Sparse, i: nat,
                                       end: nat, scores: ScoreMap)
    requires Ascending(index, count) && StrictlyAscending(query) && OnlyAhead(index, count, query, i, end)
    ensures Merge(f, index, postings, query, i, end, scores) == Seek(f, index, postings, count, query, scores)
    decreases |query| + (if i < end then end - i else 0)
  {
    if query != [] && i >= end {
      NothingAhead(index, count, query, i, end);
      NothingFound(f, index, postings, count, query, scores);
    } else if query != [] {
      StaysAhead(index, count, query, i, end);
      MergeSkips(f, index, postings, count, query, i, end, scores);
      if Dimension(index, i) < query[0].0 {
        MergeIsSeek(f, index, postings, count, query, i + 1, end, scores);
      } else if Dimension(index, i) > query[0].0 {
        SeekSkips(f, index, postings, count, query, scores);
        MergeIsSeek(f, index, postings, count, query[1..], i, end, scores);
      } else {
        var o := MeetsRow(f, index, postings, count, query, i, end, scores);
        if o.ok {
          MergeIsSeek(f, index, postings, count, query[1..], i + 1, end, o.scores);
        }
      }
    }
  }

  lemma SpanCoversQuery(index: Data, count: nat, query: Sparse)
    requires Ascending(index, count) && StrictlyAscending(query) && query != []
    ensures var low, high := BoundFrom(index, query[0].0, false, 0, count),
                             BoundFrom(index, query[|query| - 1].0, true, 0, count);
            low.Ok? && high.Ok? && OnlyAhead(index, count, query, low.value, high.value)
  {
    BoundSplits(index, count, query[0].0, false, 0, count);
    BoundSplits(index, count, query[|query| - 1].0, true, 0, count);
  }

  /** Over a validated index and an ascending query both strategies end in the same way, with the
      same scores even when a bad posting stops them half way; so the choice never matters. */
  lemma StrategiesAgree(f: Arithmetic, index: Data, postings: Data, query: Sparse, scores: ScoreMap)
    requires ValidShape(index, postings) && index != [] && StrictlyAscending(query) && query != []
    ensures var count := IndexCount(index).value;
            var low, high := BoundFrom(index, query[0].0, false, 0, count),
                             BoundFrom(index, query[|query| - 1].0, true, 0, count);
            && low.Ok? && high.Ok?
            && Merge(f, index, postings, query, low.value, high.value, scores)
               == Seek(f, index, postings, count, query, scores)
               == Accumulate(f, index, postings, query, scores)
  {
    var count := IndexCount(index).value;
    ValidRowsAscend(index, postings);
    SpanCoversQuery(index, count, query);
    MergeIsSeek(f, index, postings, count, query, BoundFrom(index, query[0].0, false, 0, count).value,
                BoundFrom(index, query[|query| - 1].0, true, 0, count).value, scores);
  }

  // ---- Dot products ----

  function DotFrom(f: Arithmetic, query: Sparse, values: Sparse, acc: nat): nat
    decreases |query| + |values|
  {
    if query == [] || values == [] then acc
    else if query[0].0 < values[0].0 then DotFrom(f, query[1..], values, acc)
    else if query[0].0 > values[0].0 then DotFrom(f, query, values[1..], acc)
    else DotFrom(f, query[1..], values[1..], f.add(acc, f.mul(query[0].1, values[0].1)))
  }

  method SparseDotScore(f: Arithmetic, query: Sparse, values: Sparse) returns (score: nat)
    ensures score == DotFrom(f, query, values, ZERO)
  {
    score := ZERO;
    var qi, vi := 0, 0;
    while qi < |query| && vi < |values|
      invariant 0 <= qi <= |query| && 0 <= vi <= |values|
      invariant DotFrom(f, query[qi..], values[vi..], score) == DotFrom(f, query, values, ZERO)
      decreases |query| - qi + |values| - vi
    {
      assert query[qi..][1..] == query[qi + 1..] && values[vi..][1..] == values[vi + 1..];
      if query[qi].0 < values[vi].0 {
        qi := qi + 1;
      } else if query[qi].0 > values[vi].0 {
        vi := vi + 1;
      } else {
        score := f.add(score, f.mul(query[qi].1, values[vi].1));
        qi, vi := qi + 1, vi + 1;
      }
    }
  }

  /** The weight of a dimension in a vector. */
  function WeightOf(v: Sparse, d: nat): Option<nat> {
    if v == [] then None else if v[0].0 == d then Some(v[0].1) else WeightOf(v[1..], d)
  }

  /** Adding the products of the query's dimensions that the vector has, to a score that may not be
      there yet. */
  function ScoreAfter(f: Arithmetic, query: Sparse, values: Sparse, score: Option<nat>): Option<nat> {
    if query == [] then score
    else
      match WeightOf(values, query[0].0)
      case None => ScoreAfter(f, query[1..], values, score)
      case Some(w) => ScoreAfter(f, query[1..], values, Some(Bumped(f, score, f.mul(query[0].1, w))))
  }

  predicate Shares(query: Sparse, values: Sparse) {
    exists k | 0 <= k < |query| :: WeightOf(values, query[k].0).Some?
  }

  lemma {:induction false} LowDimensionIsMissing(v: Sparse, d: nat)
    requires StrictlyAscending(v) && (v != [] ==> d < v[0].0)
    ensures WeightOf(v, d) == None
    decreases |v|
  {
    if v != [] {
      LowDimensionIsMissing(v[1..], d);
    }
  }

  lemma {:induction false} FirstValueUnused(f: Arithmetic, query: Sparse, values: Sparse, score: Option<nat>)
    requires values != [] && forall k | 0 <= k < |query| :: query[k].0 > values[0].0
    ensures ScoreAfter(f, query, values, score) == ScoreAfter(f, query, values[1..], score)
    decreases |query|
  {
    if query != [] {
      var rest := query[1..];
      assert forall k | 0 <= k < |rest| :: rest[k] == query[k + 1];
      match WeightOf(values, query[0].0)
      case None => FirstValueUnused(f, rest, values, score);
      case Some(w) => FirstValueUnused(f, rest, values, Some(Bumped(f, score, f.mul(query[0].1, w))));
    }
  }

  /** Merging the two lists adds the same products in the same order as looking each one up. */
  lemma {:induction false} DotIsLookup(f: Arithmetic, query: Sparse, values: Sparse, acc: nat)
    requires StrictlyAscending(query) && StrictlyAscending(values)
    ensures ScoreAfter(f, query, values, Some(acc)) == Some(DotFrom(f, query, values, acc))
    decreases |query| + |values|
  {
    if query == [] {
    } else if values == [] {
      DotIsLookup(f, query[1..], values, acc);
    } else if query[0].0 < values[0].0 {
      LowDimensionIsMissing(values, query[0].0);
      DotIsLookup(f, query[1..], values, acc);
    } else if query[0].0 > values[0].0 {
      FirstValueUnused(f, query, values, Some(acc));
      DotIsLookup(f, query, values[1..], acc);
    } else {
      var next := f.add(acc, f.mul(query[0].1, values[0].1));
      FirstValueUnused(f, query[1..], values, Some(next));
      DotIsLookup(f, query[1..], values[1..], next);
    }
  }

  /** A node not scored before is scored exactly when it shares a dimension with the query, and then
      its score is the dot product. */
  lemma {:induction false} FirstScoreIsDot(f: Arithmetic, query: Sparse, values: Sparse)
    requires StrictlyAscending(query) && StrictlyAscending(values)
    ensures ScoreAfter(f, query, values, None) ==
            if Shares(query, values) then Some(DotFrom(f, query, values, ZERO)) else None
    decreases |query|
  {
    DotIsLookup(f, query, values, ZERO);
    if query != [] && WeightOf(values, query[0].0).None? {
      var rest := query[1..];
      assert forall k | 0 <= k < |rest| :: rest[k] == query[k + 1];
      assert Shares(query, values) <==> Shares(rest, values) by {
        if k :| 0 <= k < |query| && WeightOf(values, query[k].0).Some? {
          assert rest[k - 1] == query[k];
        }
      }
      FirstScoreIsDot(f, rest, values);
      DotIsLookup(f, rest, values, ZERO);
    }
  }
}
