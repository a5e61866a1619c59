/** Writing a sparse posting index, and reading back what was written. */
module SparseFiles {
  import opened Bytes
  import opened SparseIndex
  import opened SparseMeaning
  import opened SparseScores

  datatype Group = Group(dimension: nat, postings: seq<Posting>)

  // ---- The writer ----

  function PostingBytes(p: Posting): (s: Data)
    ensures |s| == POSTING_SIZE
  {
    LE(p.node, 8) + LE(p.weight, 4)
  }

  function PostingsBytes(ps: seq<Posting>): Data {
    if ps == [] then [] else PostingBytes(ps[0]) + PostingsBytes(ps[1..])
  }

  function RowBytes(g: Group, offset: nat): Data {
    LE(g.dimension, 4) + (LE(offset, 8) + LE(|g.postings|, 4))
  }

  function AllRows(groups: seq<Group>, offset: nat): Data {
    if groups == [] then []
    else RowBytes(groups[0], offset) + AllRows(groups[1..], offset + |groups[0].postings| * POSTING_SIZE)
  }

  function AllPostings(groups: seq<Group>): Data {
    if groups == [] then [] else PostingsBytes(groups[0].postings) + AllPostings(groups[1..])
  }

  predicate WritableGroup(g: Group) {
    g.postings != [] && forall k | 0 <= k < |g.postings| ::
      IsFiniteWeight(g.postings[k].weight) && !IsBelowZero(g.postings[k].weight)
  }

  datatype Files = Files(index: Data, postings: Data)

  function Written(groups: seq<Group>): Result<Files> {
    if groups == [] then Ok(Files([], []))
    else if forall i | 0 <= i < |groups| :: WritableGroup(groups[i])
    then Ok(Files(LE(|groups|, 8) + AllRows(groups, 0), AllPostings(groups)))
    else Err
  }

  method WritePostings(g: Group) returns (r: Result<Data>)
    ensures r == if WritableGroup(g) then Ok(PostingsBytes(g.postings)) else Err
  {
    if g.postings == [] {
      return Err;
    }
    var bytes: Data := [];
    for k := 0 to |g.postings|
      invariant forall j | 0 <= j < k :: IsFiniteWeight(g.postings[j].weight) && !IsBelowZero(g.postings[j].weight)
      invariant bytes + PostingsBytes(g.postings[k..]) == PostingsBytes(g.postings)
    {
      var p := g.postings[k];
      if !IsFiniteWeight(p.weight) || IsBelowZero(p.weight) {
        return Err;
      }
      assert g.postings[k..][1..] == g.postings[k + 1..];
      Regroup(bytes, PostingBytes(p), PostingsBytes(g.postings[k + 1..]));
      bytes := bytes + PostingBytes(p);
    }
    assert bytes + PostingsBytes([]) == bytes;
    return Ok(bytes);
  }

  /** Writing the next group leaves what is written and what is still to come the same together. */
  lemma GroupAppended(index: Data, postings: Data, groups: seq<Group>, i: nat, offset: nat)
    requires i < |groups|
    ensures (index + RowBytes(groups[i], offset)) + AllRows(groups[i + 1..], offset + |groups[i].postings| * POSTING_SIZE)
            == index + AllRows(groups[i..], offset)
    ensures (postings + PostingsBytes(groups[i].postings)) + AllPostings(groups[i + 1..]) == postings + AllPostings(groups[i..])
  {
    assert groups[i..][1..] == groups[i + 1..];
    Regroup(index, RowBytes(groups[i], offset), AllRows(groups[i + 1..], offset + |groups[i].postings| * POSTING_SIZE));
    Regroup(postings, PostingsBytes(groups[i].postings), AllPostings(groups[i + 1..]));
  }

  method WriteFiles(groups: seq<Group>) returns (r: Result<Files>)
    ensures r == Written(groups)
  {
    if groups == [] {
      return Ok(Files([], []));
    }
    var index, postings, offset: nat := LE(|groups|, 8), [], 0;
    ghost var whole := index + AllRows(groups, 0);
    for i := 0 to |groups|
      invariant forall j | 0 <= j < i :: WritableGroup(groups[j])
      invariant index + AllRows(groups[i..], offset) == whole
      invariant postings + AllPostings(groups[i..]) == AllPostings(groups)
    {
      var bytes := WritePostings(groups[i]);
      if bytes.Err? {
        return Err;
      }
      GroupAppended(index, postings, groups, i, offset);
      index := index + RowBytes(groups[i], offset);
      postings := postings + bytes.value;
      offset := offset + |groups[i].postings| * POSTING_SIZE;
    }
    assert index + AllRows([], offset) == index && postings + AllPostings([]) == postings;
    return Ok(Files(index, postings));
  }

  // ---- Groups the format can hold ----

  predicate PostingFits(p: Posting) { p.node < Pow256(8) && p.weight < Pow256(4) }

  ghost predicate AscendingNodes(ps: seq<Posting>) {
    forall i, j | 0 <= i < j < |ps| :: ps[i].node < ps[j].node
  }

  ghost predicate GroupFits(g: Group) {
    && WritableGroup(g) && g.dimension < Pow256(4) && |g.postings| < Pow256(4)
    && AscendingNodes(g.postings) && forall k | 0 <= k < |g.postings| :: PostingFits(g.postings[k])
  }

  ghost predicate GroupsFit(groups: seq<Group>) {
    && (forall i | 0 <= i < |groups| :: GroupFits(groups[i]))
    && (forall i, j | 0 <= i < j < |groups| :: groups[i].dimension < groups[j].dimension)
  }

  function GroupWeight(ps: seq<Posting>, node: nat): Option<nat> {
    if ps == [] then None else if ps[0].node == node then Some(ps[0].weight) else GroupWeight(ps[1..], node)
  }

  /** The vector of a node, as the groups have it. */
  function GroupVector(groups: seq<Group>, node: nat): Sparse {
    if groups == [] then []
    else
      var rest := GroupVector(groups[1..], node);
      match GroupWeight(groups[0].postings, node)
      case None => rest
      case Some(w) => [(groups[0].dimension, w)] + rest
  }

  lemma {:induction false} PostingsLength(ps: seq<Posting>)
    ensures |PostingsBytes(ps)| == |ps| * POSTING_SIZE
    decreases |ps|
  {
    if ps != [] {
      PostingsLength(ps[1..]);
    }
  }

  lemma {:induction false} RowsLength(groups: seq<Group>, offset: nat)
    ensures |AllRows(groups, offset)| == |groups| * ROW_SIZE
    decreases |groups|
  {
    if groups != [] {
      RowsLength(groups[1..], offset + |groups[0].postings| * POSTING_SIZE);
    }
  }

  // ---- Reading back ----

  lemma PostingReads(data: Data, at: nat, p: Posting, rest: Data)
    requires Holds(data, at, PostingBytes(p) + rest) && PostingFits(p)
    ensures PostingAt(data, at) == Some(p) && Holds(data, at + POSTING_SIZE, rest)
  {
    HoldsParts(data, at, PostingBytes(p), rest);
    TakeField(data, at, p.node, 8, LE(p.weight, 4));
    HoldsRead(data, at + 8, p.weight, 4);
  }

  lemma {:induction false} GroupPostingsRead(f: Arithmetic, data: Data, at: nat, ps: seq<Posting>, previous: Option<nat>,
                                             queryWeight: nat, scores: ScoreMap, node: nat)
    requires Holds(data, at, PostingsBytes(ps)) && AscendingNodes(ps)
    requires forall k | 0 <= k < |ps| :: PostingFits(ps[k]) && PostingOk(ps[k], previous)
    ensures NodeWeight(data, at, |ps|, node) == GroupWeight(ps, node)
    ensures AddPostings(f, data, at, |ps|, previous, queryWeight, scores).ok
    decreases |ps|
  {
    if ps != [] {
      PostingReads(data, at, ps[0], PostingsBytes(ps[1..]));
      forall k | 0 <= k < |ps[1..]|
        ensures PostingFits(ps[1..][k]) && PostingOk(ps[1..][k], Some(ps[0].node))
      {
        assert ps[1..][k] == ps[k + 1];
      }
      GroupPostingsRead(f, data, at + POSTING_SIZE, ps[1..], Some(ps[0].node), queryWeight,
                        AddPosting(f, ps[0], queryWeight, scores), node);
    }
  }

  /** A written row: where it says its postings are, they are. */
  ghost predicate RowWritten(postings: Data, row: Row, g: Group, offset: nat) {
    && row == Row(g.dimension, offset, |g.postings|)
    && offset + |g.postings| * POSTING_SIZE <= |postings|
    && Holds(postings, offset, PostingsBytes(g.postings))
  }

  /** The rows from i on are those of these groups. */
  ghost predicate RowsWritten(index: Data, postings: Data, i: nat, groups: seq<Group>, offset: nat)
    decreases |groups|
  {
    if groups == [] then offset == |postings|
    else
      && RowAt(index, i).Some? && RowWritten(postings, RowAt(index, i).value, groups[0], offset)
      && RowsWritten(index, postings, i + 1, groups[1..], offset + |groups[0].postings| * POSTING_SIZE)
  }

  lemma RowReads(index: Data, i: nat, g: Group, offset: nat, rest: Data)
    requires Holds(index, 8 + i * ROW_SIZE, RowBytes(g, offset) + rest)
    requires g.dimension < Pow256(4) && offset < Pow256(8) && |g.postings| < Pow256(4)
    ensures RowAt(index, i) == Some(Row(g.dimension, offset, |g.postings|))
    ensures Holds(index, 8 + (i + 1) * ROW_SIZE, rest)
  {
    var base := 8 + i * ROW_SIZE;
    HoldsParts(index, base, RowBytes(g, offset), rest);
    TakeField(index, base, g.dimension, 4, LE(offset, 8) + LE(|g.postings|, 4));
    TakeField(index, base + 4, offset, 8, LE(|g.postings|, 4));
    HoldsRead(index, base + 12, |g.postings|, 4);
  }

  lemma FirstGroupHeld(postings: Data, offset: nat, groups: seq<Group>)
    requires groups != [] && Holds(postings, offset, AllPostings(groups))
    ensures var n := |groups[0].postings| * POSTING_SIZE;
            && Holds(postings, offset, PostingsBytes(groups[0].postings))
            && Holds(postings, offset + n, AllPostings(groups[1..]))
            && |AllPostings(groups)| == n + |AllPostings(groups[1..])|
  {
    PostingsLength(groups[0].postings);
    HoldsParts(postings, offset, PostingsBytes(groups[0].postings), AllPostings(groups[1..]));
  }

  lemma RestFits(groups: seq<Group>)
    requires GroupsFit(groups) && groups != []
    ensures GroupFits(groups[0]) && GroupsFit(groups[1..])
  {
  }

  lemma WrittenRow(index: Data, postings: Data, i: nat, groups: seq<Group>, offset: nat)
    requires GroupsFit(groups) && groups != [] && |postings| < Pow256(8)
    requires Holds(index, 8 + i * ROW_SIZE, AllRows(groups, offset))
    requires Holds(postings, offset, AllPostings(groups)) && offset + |AllPostings(groups)| == |postings|
    ensures RowAt(index, i).Some? && RowWritten(postings, RowAt(index, i).value, groups[0], offset)
    ensures var next := offset + |groups[0].postings| * POSTING_SIZE;
            && GroupsFit(groups[1..]) && Holds(index, 8 + (i + 1) * ROW_SIZE, AllRows(groups[1..], next))
            && Holds(postings, next, AllPostings(groups[1..])) && next + |AllPostings(groups[1..])| == |postings|
  {
    RestFits(groups);
    FirstGroupHeld(postings, offset, groups);
    RowReads(index, i, groups[0], offset, AllRows(groups[1..], offset + |groups[0].postings| * POSTING_SIZE));
  }

  lemma RowThenRows(index: Data, postings: Data, i: nat, groups: seq<Group>, offset: nat, next: nat)
    requires groups != [] && next == offset + |groups[0].postings| * POSTING_SIZE
    requires RowAt(index, i).Some? && RowWritten(postings, RowAt(index, i).value, groups[0], offset)
    requires RowsWritten(index, postings, i + 1, groups[1..], next)
    ensures RowsWritten(index, postings, i, groups, offset)
  {
  }

  lemma {:induction false} WrittenRows(index: Data, postings: Data, i: nat, groups: seq<Group>, offset: nat)
    requires GroupsFit(groups) && |postings| < Pow256(8)
    requires Holds(index, 8 + i * ROW_SIZE, AllRows(groups, offset))
    requires Holds(postings, offset, AllPostings(groups)) && offset + |AllPostings(groups)| == |postings|
    ensures RowsWritten(index, postings, i, groups, offset)
    decreases |groups|
  {
    if groups != [] {
      WrittenRow(index, postings, i, groups, offset);
      var next := offset + |groups[0].postings| * POSTING_SIZE;
      WrittenRows(index, postings, i + 1, groups[1..], next);
      RowThenRows(index, postings, i, groups, offset, next);
    }
  }

  lemma {:induction false} WrittenRowsFit(index: Data, postings: Data, count: nat, i: nat, groups: seq<Group>, offset: nat,
                                          previous: Option<nat>)
    requires GroupsFit(groups) && RowsWritten(index, postings, i, groups, offset) && count == i + |groups|
    requires previous.Some? && groups != [] ==> previous.value < groups[0].dimension
    ensures RowsFit(index, count, i, previous, offset, |postings|)
    decreases |groups|
  {
    if groups != [] {
      assert GroupFits(groups[0]);
      WrittenRowsFit(index, postings, count, i + 1, groups[1..], offset + |groups[0].postings| * POSTING_SIZE,
                     Some(groups[0].dimension));
    }
  }

  const PLAIN := Arithmetic((x, y) => 0, (x, y) => 0)

  lemma {:induction false} WrittenVector(index: Data, postings: Data, count: nat, i: nat, groups: seq<Group>, offset: nat,
                                         node: nat)
    requires GroupsFit(groups) && RowsWritten(index, postings, i, groups, offset) && count == i + |groups|
    ensures VectorFrom(index, postings, count, i, node) == GroupVector(groups, node)
    decreases |groups|
  {
    if groups != [] {
      assert GroupFits(groups[0]);
      GroupPostingsRead(PLAIN, postings, offset, groups[0].postings, None, 0, map[], node);
      assert RowWeight(postings, RowAt(index, i).value, node) == GroupWeight(groups[0].postings, node);
      WrittenVector(index, postings, count, i + 1, groups[1..], offset + |groups[0].postings| * POSTING_SIZE, node);
    }
  }

  lemma {:induction false} EachRowWritten(index: Data, postings: Data, i: nat, groups: seq<Group>, offset: nat, j: nat)
    returns (at: nat)
    requires RowsWritten(index, postings, i, groups, offset) && j < |groups|
    ensures RowAt(index, i + j).Some? && RowWritten(postings, RowAt(index, i + j).value, groups[j], at)
    decreases |groups|
  {
    at := offset;
    if j > 0 {
      at := EachRowWritten(index, postings, i + 1, groups[1..], offset + |groups[0].postings| * POSTING_SIZE, j - 1);
    }
  }

  /** A row that is found is one that was written, so its postings can be added. */
  lemma WrittenRowScores(f: Arithmetic, index: Data, postings: Data, groups: seq<Group>, d: nat, queryWeight: nat,
                         scores: ScoreMap)
    requires GroupsFit(groups) && RowsWritten(index, postings, 0, groups, 0) && Ascending(index, |groups|)
    requires FindFrom(index, d, 0, |groups|).Ok? && FindFrom(index, d, 0, |groups|).value.Some?
    ensures AddRow(f, postings, FindFrom(index, d, 0, |groups|).value.value, queryWeight, scores).ok
  {
    FoundIsThere(index, |groups|, d);
    var j: nat :| j < |groups| && Dimension(index, j) == d;
    RowFound(index, |groups|, j);
    var at := EachRowWritten(index, postings, 0, groups, 0, j);
    assert GroupFits(groups[j]);
    GroupPostingsRead(f, postings, at, groups[j].postings, None, queryWeight, scores, 0);
  }

  lemma {:induction false} WrittenSeekSucceeds(f: Arithmetic, index: Data, postings: Data, groups: seq<Group>, query: Sparse,
                                               scores: ScoreMap)
    requires GroupsFit(groups) && RowsWritten(index, postings, 0, groups, 0) && Ascending(index, |groups|)
    ensures Seek(f, index, postings, |groups|, query, scores).ok
    decreases |query|
  {
    if query != [] {
      var d := query[0].0;
      FoundIsThere(index, |groups|, d);
      match FindFrom(index, d, 0, |groups|).value
      case None => WrittenSeekSucceeds(f, index, postings, groups, query[1..], scores);
      case Some(row) =>
        WrittenRowScores(f, index, postings, groups, d, query[0].1, scores);
        WrittenSeekSucceeds(f, index, postings, groups, query[1..], AddRow(f, postings, row, query[0].1, scores).scores);
    }
  }

  lemma IndexHolds(groups: seq<Group>, index: Data)
    requires |groups| < Pow256(8) && index == LE(|groups|, 8) + AllRows(groups, 0)
    ensures IndexCount(index) == Some(|groups|) && Holds(index, 8, AllRows(groups, 0))
  {
    assert Holds(index, 0, LE(|groups|, 8) + AllRows(groups, 0));
    TakeField(index, 0, |groups|, 8, AllRows(groups, 0));
    RowsLength(groups, 0);
  }

  lemma WrittenShape(groups: seq<Group>, w: Files)
    requires GroupsFit(groups) && groups != [] && |groups| < Pow256(8) && |AllPostings(groups)| < Pow256(8)
    requires w == Files(LE(|groups|, 8) + AllRows(groups, 0), AllPostings(groups))
    ensures RowsWritten(w.index, w.postings, 0, groups, 0)
    ensures ValidShape(w.index, w.postings) && w.index != [] && IndexCount(w.index) == Some(|groups|)
  {
    IndexHolds(groups, w.index);
    assert Holds(w.postings, 0, AllPostings(groups));
    WrittenRows(w.index, w.postings, 0, groups, 0);
    WrittenRowsFit(w.index, w.postings, |groups|, 0, groups, 0, None);
    FirstGroupHeld(w.postings, 0, groups);
    RestFits(groups);
  }

  /** The written files pass the shape check, and every node's vector is read back from them. */
  lemma WrittenFilesRead(groups: seq<Group>, node: nat)
    requires GroupsFit(groups) && groups != [] && |groups| < Pow256(8) && |AllPostings(groups)| < Pow256(8)
    ensures Written(groups).Ok?
    ensures var w := Written(groups).value;
            && ValidShape(w.index, w.postings) && w.index != [] && IndexCount(w.index) == Some(|groups|)
            && RowsWritten(w.index, w.postings, 0, groups, 0)
            && VectorOf(w.index, w.postings, node) == GroupVector(groups, node)
  {
    assert forall i | 0 <= i < |groups| :: GroupFits(groups[i]);
    var w := Written(groups).value;
    WrittenShape(groups, w);
    WrittenVector(w.index, w.postings, |groups|, 0, groups, 0, node);
  }

  /** Scoring a query against written postings always succeeds, and gives each node the dot product
      of the query with the node's vector in the groups. */
  lemma WrittenScoresAreDotProducts(f: Arithmetic, groups: seq<Group>, query: Sparse, node: nat)
    requires GroupsFit(groups) && groups != [] && |groups| < Pow256(8) && |AllPostings(groups)| < Pow256(8)
    requires query != [] && StrictlyAscending(query)
    ensures Written(groups).Ok?
    ensures var w := Written(groups).value;
            var o := Accumulate(f, w.index, w.postings, query, map[]);
            && o.ok
            && ScoreOf(o.scores, node) ==
               if Shares(query, GroupVector(groups, node)) then Some(DotFrom(f, query, GroupVector(groups, node), ZERO))
               else None
  {
    WrittenFilesRead(groups, node);
    var w := Written(groups).value;
    ValidRowsAscend(w.index, w.postings);
    WrittenSeekSucceeds(f, w.index, w.postings, groups, query, map[]);
    StrategiesAgree(f, w.index, w.postings, query, map[]);
    ScoresAreDotProducts(f, w.index, w.postings, query, map[], node);
  }
}
