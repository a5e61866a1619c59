/** What the scores of a sparse query mean: dot products with the vectors behind the postings. */
module SparseMeaning {
  import opened Bytes
  import opened SparseIndex
  import opened SparseScores

  // ---- The vectors in the files ----

  function NodeWeight(postings: Data, at: nat, n: nat, node: nat): Option<nat>
    decreases n
  {
    if n == 0 then None
    else
      match PostingAt(postings, at)
      case None => None
      case Some(p) => if p.node == node then Some(p.weight) else NodeWeight(postings, at + POSTING_SIZE, n - 1, node)
  }

  function RowWeight(postings: Data, row: Row, node: nat): Option<nat> {
    NodeWeight(postings, row.offset, row.count, node)
  }

  /** The node's weight in each row from i on that has it, by ascending dimension. */
  function VectorFrom(index: Data, postings: Data, count: nat, i: nat, node: nat): Sparse
    decreases count - i
  {
    if i >= count then []
    else
      var rest := VectorFrom(index, postings, count, i + 1, node);
      match RowAt(index, i)
      case None => rest
      case Some(row) =>
        match RowWeight(postings, row, node)
        case None => rest
        case Some(w) => [(row.dimension, w)] + rest
  }

  /** The vector of a node, as the index has it. */
  function VectorOf(index: Data, postings: Data, node: nat): Sparse {
    match IndexCount(index)
    case None => []
    case Some(count) => VectorFrom(index, postings, count, 0, node)
  }

  ghost predicate AllAtLeast(v: Sparse, index: Data, i: nat) {
    forall k | 0 <= k < |v| :: Dimension(index, i) <= v[k].0
  }

  lemma {:induction false} VectorAscends(index: Data, postings: Data, count: nat, i: nat, node: nat)
    requires Ascending(index, count)
    ensures StrictlyAscending(VectorFrom(index, postings, count, i, node))
    ensures i < count ==> AllAtLeast(VectorFrom(index, postings, count, i, node), index, i)
    decreases count - i
  {
    if i < count {
      VectorAscends(index, postings, count, i + 1, node);
      var v, rest := VectorFrom(index, postings, count, i, node), VectorFrom(index, postings, count, i + 1, node);
      assert RowAt(index, i).Some? && Dimension(index, i) == RowAt(index, i).value.dimension;
      if i + 1 < count {
        assert Dimension(index, i) < Dimension(index, i + 1);
      }
      forall k | 0 <= k < |v|
        ensures Dimension(index, i) <= v[k].0
      {
        if v != rest && k > 0 {
          assert v[k] == rest[k - 1];
        }
      }
    }
  }

  lemma {:induction false} MissingDimension(index: Data, postings: Data, count: nat, i: nat, node: nat, d: nat)
    requires Ascending(index, count) && forall j: nat | i <= j < count :: Dimension(index, j) != d
    ensures WeightOf(VectorFrom(index, postings, count, i, node), d) == None
    decreases count - i
  {
    if i < count {
      assert RowAt(index, i).Some? && Dimension(index, i) != d;
      MissingDimension(index, postings, count, i + 1, node, d);
    }
  }

  lemma {:induction false} PresentDimension(index: Data, postings: Data, count: nat, i: nat, node: nat, j: nat)
    requires Ascending(index, count) && i <= j < count
    ensures WeightOf(VectorFrom(index, postings, count, i, node), Dimension(index, j))
            == RowWeight(postings, RowAt(index, j).value, node)
    decreases count - i
  {
    assert RowAt(index, i).Some? && Dimension(index, i) == RowAt(index, i).value.dimension;
    FirstRowDecides(index, postings, count, i, node, Dimension(index, j));
    if i < j {
      assert Dimension(index, i) < Dimension(index, j);
      PresentDimension(index, postings, count, i + 1, node, j);
    } else {
      LaterRowsLackIt(index, postings, count, i, node);
    }
  }

  lemma LaterRowsLackIt(index: Data, postings: Data, count: nat, i: nat, node: nat)
    requires Ascending(index, count) && i < count
    ensures WeightOf(VectorFrom(index, postings, count, i + 1, node), Dimension(index, i)) == None
  {
    forall k: nat | i + 1 <= k < count
      ensures Dimension(index, k) != Dimension(index, i)
    {
      assert Dimension(index, i) < Dimension(index, k);
    }
    MissingDimension(index, postings, count, i + 1, node, Dimension(index, i));
  }

  lemma FirstRowDecides(index: Data, postings: Data, count: nat, i: nat, node: nat, d: nat)
    requires i < count && RowAt(index, i).Some?
    ensures var w, rest := RowWeight(postings, RowAt(index, i).value, node), VectorFrom(index, postings, count, i + 1, node);
            WeightOf(VectorFrom(index, postings, count, i, node), d) ==
            if w.Some? && RowAt(index, i).value.dimension == d then w else WeightOf(rest, d)
  {
    var rest := VectorFrom(index, postings, count, i + 1, node);
    match RowWeight(postings, RowAt(index, i).value, node)
    case None =>
    case Some(w) => assert ([(RowAt(index, i).value.dimension, w)] + rest)[1..] == rest;
  }

  /** Looking a dimension up in the index and then the node in its row is looking the dimension up in
      the node's vector. */
  lemma LookupIsVectorWeight(index: Data, postings: Data, count: nat, node: nat, d: nat)
    requires Ascending(index, count)
    ensures FindFrom(index, d, 0, count).Ok?
    ensures WeightOf(VectorFrom(index, postings, count, 0, node), d) ==
            match FindFrom(index, d, 0, count).value
            case None => None
            case Some(row) => RowWeight(postings, row, node)
  {
    FoundIsThere(index, count, d);
    FindDimensionFinds(index, count, d);
    if FindFrom(index, d, 0, count).value.Some? {
      var j: nat :| j < count && Dimension(index, j) == d;
      RowFound(index, count, j);
      PresentDimension(index, postings, count, 0, node, j);
    } else {
      MissingDimension(index, postings, count, 0, node, d);
    }
  }

  // ---- What a scan does to one node's score ----

  lemma {:induction false} LaterPostingsAbove(f: Arithmetic, postings: Data, at: nat, n: nat, previous: nat, queryWeight: nat,
                                              scores: ScoreMap, node: nat)
    requires AddPostings(f, postings, at, n, Some(previous), queryWeight, scores).ok && node <= previous
    ensures NodeWeight(postings, at, n, node) == None
    decreases n
  {
    if n > 0 {
      var p := PostingAt(postings, at).value;
      LaterPostingsAbove(f, postings, at + POSTING_SIZE, n - 1, p.node, queryWeight,
                         AddPosting(f, p, queryWeight, scores), node);
    }
  }

  /** A score with one product added, when there is one. */
  function WithProduct(f: Arithmetic, score: Option<nat>, queryWeight: nat, weight: Option<nat>): Option<nat> {
    match weight
    case None => score
    case Some(w) => Some(Bumped(f, score, f.mul(queryWeight, w)))
  }

  lemma {:induction false} PostingsEffect(f: Arithmetic, postings: Data, at: nat, n: nat, previous: Option<nat>,
                                          queryWeight: nat, scores: ScoreMap, node: nat)
    requires AddPostings(f, postings, at, n, previous, queryWeight, scores).ok
    ensures ScoreOf(AddPostings(f, postings, at, n, previous, queryWeight, scores).scores, node) ==
            WithProduct(f, ScoreOf(scores, node), queryWeight, NodeWeight(postings, at, n, node))
    decreases n
  {
    if n > 0 {
      var p := PostingAt(postings, at).value;
      var next := AddPosting(f, p, queryWeight, scores);
      PostingsEffect(f, postings, at + POSTING_SIZE, n - 1, Some(p.node), queryWeight, next, node);
      if p.node == node {
        LaterPostingsAbove(f, postings, at + POSTING_SIZE, n - 1, p.node, queryWeight, next, node);
      }
    }
  }

  lemma {:induction false} SeekEffect(f: Arithmetic, index: Data, postings: Data, count: nat, query: Sparse,
                                      scores: ScoreMap, node: nat)
    requires Ascending(index, count) && Seek(f, index, postings, count, query, scores).ok
    ensures ScoreOf(Seek(f, index, postings, count, query, scores).scores, node) ==
            ScoreAfter(f, query, VectorFrom(index, postings, count, 0, node), ScoreOf(scores, node))
    decreases |query|
  {
    if query != [] {
      LookupIsVectorWeight(index, postings, count, node, query[0].0);
      match FindFrom(index, query[0].0, 0, count).value
      case None =>
        SeekEffect(f, index, postings, count, query[1..], scores, node);
      case Some(row) =>
        PostingsEffect(f, postings, row.offset, row.count, None, query[0].1, scores, node);
        SeekEffect(f, index, postings, count, query[1..], AddRow(f, postings, row, query[0].1, scores).scores, node);
    }
  }

  /** When scoring succeeds, every node that shares a dimension with the query has the dot product of
      the query with the node's vector as its score, added onto what it had; no other node changes. */
  lemma ScoresAreDotProducts(f: Arithmetic, index: Data, postings: Data, query: Sparse, scores: ScoreMap, node: nat)
    requires ValidShape(index, postings) && index != [] && query != [] && StrictlyAscending(query)
    requires Accumulate(f, index, postings, query, scores).ok
    ensures var v := VectorOf(index, postings, node);
            ScoreOf(Accumulate(f, index, postings, query, scores).scores, node) ==
            if node in scores then Some(DotFrom(f, query, v, scores[node]))
            else if Shares(query, v) then Some(DotFrom(f, query, v, ZERO))
            else None
  {
    var count := IndexCount(index).value;
    StrategiesAgree(f, index, postings, query, scores);
    ValidRowsAscend(index, postings);
    SeekEffect(f, index, postings, count, query, scores, node);
    var v := VectorFrom(index, postings, count, 0, node);
    VectorAscends(index, postings, count, 0, node);
    FirstScoreIsDot(f, query, v);
    if node in scores {
      DotIsLookup(f, query, v, scores[node]);
    }
  }
}
