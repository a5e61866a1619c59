/** The two files of a built vector index: writing them, finding a neighbour list in them, and
    validating them. */
module HnswFiles {
  import opened Bytes

  const MAGIC: Data := [0x44, 0x48, 0x4E, 0x57]
  const VERSION := 1
  const HEADER_SIZE := 36
  const POINT_META_SIZE := 32

  datatype DistanceMetric = Cosine | Euclidean | DotProduct

  datatype Header = Header(pointCount: nat, entryPoint: nat, maxLevel: nat, m: nat, efConstruction: nat,
                           metric: DistanceMetric, dimension: nat)

  datatype PointMeta = PointMeta(nodeId: nat, vectorOffset: nat, levelOffset: nat, maxLevel: nat)

  type Neighbors = seq<nat>
  type PointLists = seq<Neighbors>
  type Graph = seq<PointLists>

  datatype Built = Built(header: Header, metas: seq<PointMeta>, graph: Graph)

  // ---- The graph file ----

  function Words(ns: Neighbors): Data {
    if ns == [] then [] else LE(ns[0], 4) + Words(ns[1..])
  }

  function ListBytes(ns: Neighbors): Data {
    LE(|ns|, 2) + LE(0, 2) + Words(ns)
  }

  function PointBytes(lists: PointLists): Data {
    if lists == [] then [] else ListBytes(lists[0]) + PointBytes(lists[1..])
  }

  function GraphBytes(graph: Graph): Data {
    if graph == [] then [] else PointBytes(graph[0]) + GraphBytes(graph[1..])
  }

  /** The values a list can store exactly. */
  predicate Storable(ns: Neighbors) {
    |ns| < Pow256(2) && forall n | n in ns :: n < Pow256(4)
  }

  predicate StorableGraph(graph: Graph) {
    forall p | 0 <= p < |graph| :: forall l | 0 <= l < |graph[p]| :: Storable(graph[p][l])
  }

  lemma {:induction false} WordsLength(ns: Neighbors)
    ensures |Words(ns)| == 4 * |ns|
    decreases |ns|
  {
    if ns != [] {
      WordsLength(ns[1..]);
    }
  }

  lemma {:induction false} WordsRead(data: Data, start: nat, ns: Neighbors, i: nat)
    requires i < |ns| && Holds(data, start, Words(ns))
    requires forall n | n in ns :: n < Pow256(4)
    ensures ReadAt(data, start + 4 * i, 4) == Some(ns[i])
    decreases |ns|
  {
    assert ns[0] in ns;
    HoldsParts(data, start, LE(ns[0], 4), Words(ns[1..]));
    if i == 0 {
      HoldsRead(data, start, ns[0], 4);
    } else {
      assert forall n | n in ns[1..] :: n in ns;
      WordsRead(data, start + 4, ns[1..], i - 1);
    }
  }

  lemma {:induction false} PointBytesConcat(a: PointLists, b: PointLists)
    ensures PointBytes(a + b) == PointBytes(a) + PointBytes(b)
    decreases |a|
  {
    if a == [] {
      assert a + b == b;
    } else {
      assert (a + b)[1..] == a[1..] + b;
      PointBytesConcat(a[1..], b);
    }
  }

  lemma {:induction false} GraphBytesConcat(a: Graph, b: Graph)
    ensures GraphBytes(a + b) == GraphBytes(a) + GraphBytes(b)
    decreases |a|
  {
    if a == [] {
      assert a + b == b;
    } else {
      assert (a + b)[1..] == a[1..] + b;
      GraphBytesConcat(a[1..], b);
    }
  }

  /** One point's lists sit after those of the points before it. */
  lemma GraphSplit(graph: Graph, p: nat)
    requires p < |graph|
    ensures Holds(GraphBytes(graph), |GraphBytes(graph[..p])|, PointBytes(graph[p]))
    ensures |GraphBytes(graph[..p + 1])| == |GraphBytes(graph[..p])| + |PointBytes(graph[p])|
  {
    assert graph == graph[..p] + graph[p..];
    GraphBytesConcat(graph[..p], graph[p..]);
    GraphBytesSnoc(graph, p);
  }

  // ---- Finding a list ----

  /** Walks over `level` lists from the cursor and returns where the next one's words start and how
      many there are. */
  function SpanAt(graph: Data, cursor: nat, level: nat): Result<(nat, nat)>
    decreases level
  {
    match ReadAt(graph, cursor, 2)
    case None => Err
    case Some(count) =>
      var start := cursor + 4;
      if start + 4 * count > |graph| then Err
      else if level == 0 then Ok((start, count))
      else SpanAt(graph, start + 4 * count, level - 1)
  }

  /** The span of a point's list at a level: empty above the point's own top level. */
  function SpanOf(meta: PointMeta, graph: Data, level: nat): Result<(nat, nat)> {
    if level > meta.maxLevel then Ok((0, 0)) else SpanAt(graph, meta.levelOffset, level)
  }

  /** The list at the cursor: where its words start and how many there are. */
  method ListAt(graph: Data, cursor: nat) returns (r: Result<(nat, nat)>)
    ensures r == SpanAt(graph, cursor, 0)
  {
    var count := ReadAt(graph, cursor, 2);
    if count.None? || cursor + 4 + 4 * count.value > |graph| {
      return Err;
    }
    return Ok((cursor + 4, count.value));
  }

  method LevelNeighborSpan(meta: PointMeta, graph: Data, level: nat) returns (r: Result<(nat, nat)>)
    ensures r == SpanOf(meta, graph, level)
  {
    if level > meta.maxLevel {
      return Ok((0, 0));
    }
    var cursor: nat := meta.levelOffset;
    var current := 0;
    r := ListAt(graph, cursor);
    while r.Ok? && current < level
      invariant current <= level
      invariant r == SpanAt(graph, cursor, 0)
      invariant SpanAt(graph, cursor, level - current) == SpanOf(meta, graph, level)
      decreases level - current
    {
      cursor := r.value.0 + 4 * r.value.1;
      current := current + 1;
      r := ListAt(graph, cursor);
    }
  }

  /** The span holds this list. */
  ghost predicate SpanHolds(graph: Data, span: Result<(nat, nat)>, ns: Neighbors) {
    && span.Ok? && span.value.1 == |ns|
    && forall i | 0 <= i < |ns| :: ReadAt(graph, span.value.0 + 4 * i, 4) == Some(ns[i])
  }

  lemma ListStarts(data: Data, cursor: nat, ns: Neighbors)
    requires Storable(ns) && Holds(data, cursor, ListBytes(ns))
    ensures Holds(data, cursor + 4, Words(ns))
    ensures SpanAt(data, cursor, 0) == Ok((cursor + 4, |ns|))
  {
    var head := LE(|ns|, 2) + LE(0, 2);
    HoldsParts(data, cursor, head, Words(ns));
    assert |head| == 4;
    TakeField(data, cursor, |ns|, 2, LE(0, 2));
    WordsLength(ns);
  }

  lemma ListReads(data: Data, cursor: nat, ns: Neighbors)
    requires Storable(ns) && Holds(data, cursor, ListBytes(ns))
    ensures SpanHolds(data, SpanAt(data, cursor, 0), ns)
    ensures SpanAt(data, cursor, 0) == Ok((cursor + 4, |ns|))
  {
    ListStarts(data, cursor, ns);
    forall i | 0 <= i < |ns|
      ensures ReadAt(data, cursor + 4 + 4 * i, 4) == Some(ns[i])
    {
      WordsRead(data, cursor + 4, ns, i);
    }
  }

  lemma SpanStep(data: Data, cursor: nat, lists: PointLists, level: nat) returns (next: nat)
    requires level > 0 && lists != [] && Storable(lists[0]) && Holds(data, cursor, PointBytes(lists))
    ensures Holds(data, next, PointBytes(lists[1..]))
    ensures SpanAt(data, cursor, level) == SpanAt(data, next, level - 1)
  {
    next := cursor + 4 + 4 * |lists[0]|;
    FirstListHeld(data, cursor, lists);
    ListStarts(data, cursor, lists[0]);
    SpanAfter(data, cursor, level, |lists[0]|);
  }

  lemma FirstListHeld(data: Data, cursor: nat, lists: PointLists)
    requires lists != [] && Holds(data, cursor, PointBytes(lists))
    ensures Holds(data, cursor, ListBytes(lists[0]))
    ensures Holds(data, cursor + 4 + 4 * |lists[0]|, PointBytes(lists[1..]))
  {
    HoldsParts(data, cursor, ListBytes(lists[0]), PointBytes(lists[1..]));
    ListLength(lists[0]);
  }

  lemma ListLength(ns: Neighbors)
    ensures |ListBytes(ns)| == 4 + 4 * |ns|
  {
    WordsLength(ns);
  }

  lemma SpanAfter(data: Data, cursor: nat, level: nat, count: nat)
    requires level > 0 && SpanAt(data, cursor, 0) == Ok((cursor + 4, count))
    ensures SpanAt(data, cursor, level) == SpanAt(data, cursor + 4 + 4 * count, level - 1)
  {
  }

  lemma {:induction false} SpanOfWritten(data: Data, cursor: nat, lists: PointLists, level: nat)
    requires level < |lists| && forall l | 0 <= l < |lists| :: Storable(lists[l])
    requires Holds(data, cursor, PointBytes(lists))
    ensures SpanHolds(data, SpanAt(data, cursor, level), lists[level])
    decreases level
  {
    if level == 0 {
      FirstListHeld(data, cursor, lists);
      ListReads(data, cursor, lists[0]);
    } else {
      var next := SpanStep(data, cursor, lists, level);
      SpanOfWritten(data, next, lists[1..], level - 1);
    }
  }

  // ---- Building and writing ----

  /** The point table the build computes: each point's offset is the running total of four bytes per
      list and four per neighbour. */
  method PointTable(ids: seq<nat>, vectorOffsets: seq<nat>, graph: Graph) returns (metas: seq<PointMeta>)
    requires |ids| == |vectorOffsets| == |graph| && forall p | 0 <= p < |graph| :: graph[p] != []
    ensures |metas| == |graph|
    ensures forall p | 0 <= p < |graph| ::
              metas[p] == PointMeta(ids[p], vectorOffsets[p], |GraphBytes(graph[..p])|, |graph[p]| - 1)
  {
    metas := [];
    var offset: nat := 0;
    for p := 0 to |graph|
      invariant |metas| == p
      invariant offset == |GraphBytes(graph[..p])|
      invariant forall q | 0 <= q < p ::
                  metas[q] == PointMeta(ids[q], vectorOffsets[q], |GraphBytes(graph[..q])|, |graph[q]| - 1)
    {
      metas := metas + [PointMeta(ids[p], vectorOffsets[p], offset, |graph[p]| - 1)];
      ghost var start := offset;
      for l := 0 to |graph[p]|
        invariant offset == start + |PointBytes(graph[p][..l])|
      {
        offset := offset + 4 + 4 * |graph[p][l]|;
        PointBytesSnoc(graph[p], l);
        WordsLength(graph[p][l]);
      }
      assert graph[p][..|graph[p]|] == graph[p];
      GraphBytesSnoc(graph, p);
    }
  }

  method WriteList(ns: Neighbors) returns (bytes: Data)
    ensures bytes == ListBytes(ns)
  {
    bytes := LE(|ns|, 2) + LE(0, 2);
    ghost var head := bytes;
    assert ns[0..] == ns;
    for i := 0 to |ns|
      invariant bytes + Words(ns[i..]) == head + Words(ns)
    {
      assert ns[i..][1..] == ns[i + 1..];
      bytes := bytes + LE(ns[i], 4);
    }
  }

  lemma PointBytesSnoc(lists: PointLists, l: nat)
    requires l < |lists|
    ensures PointBytes(lists[..l + 1]) == PointBytes(lists[..l]) + ListBytes(lists[l])
  {
    assert lists[..l + 1] == lists[..l] + [lists[l]];
    PointBytesConcat(lists[..l], [lists[l]]);
    assert PointBytes([lists[l]]) == ListBytes(lists[l]) + PointBytes([lists[l]][1..]);
  }

  lemma GraphBytesSnoc(graph: Graph, p: nat)
    requires p < |graph|
    ensures GraphBytes(graph[..p + 1]) == GraphBytes(graph[..p]) + PointBytes(graph[p])
  {
    assert graph[..p + 1] == graph[..p] + [graph[p]];
    GraphBytesConcat(graph[..p], [graph[p]]);
    assert GraphBytes([graph[p]]) == PointBytes(graph[p]) + GraphBytes([graph[p]][1..]);
  }

  method WritePoint(lists: PointLists) returns (bytes: Data)
    ensures bytes == PointBytes(lists)
  {
    bytes := [];
    for l := 0 to |lists|
      invariant bytes == PointBytes(lists[..l])
    {
      var list := WriteList(lists[l]);
      bytes := bytes + list;
      PointBytesSnoc(lists, l);
    }
    assert lists[..|lists|] == lists;
  }

  method WriteGraph(graph: Graph) returns (bytes: Data)
    ensures bytes == GraphBytes(graph)
  {
    bytes := [];
    for p := 0 to |graph|
      invariant bytes == GraphBytes(graph[..p])
    {
      var point := WritePoint(graph[p]);
      bytes := bytes + point;
      GraphBytesSnoc(graph, p);
    }
    assert graph[..|graph|] == graph;
  }

  /** A built index that the file format can hold. */
  ghost predicate Writable(b: Built) {
    && |b.metas| == |b.graph| == b.header.pointCount
    && b.header.pointCount <= 0xFFFF_FFFF && b.header.entryPoint < b.header.pointCount
    && b.header.maxLevel < Pow256(2) && b.header.m < Pow256(2) && b.header.efConstruction < Pow256(2)
    && b.header.dimension < Pow256(4)
    && StorableGraph(b.graph)
    && (forall p | 0 <= p < |b.graph| ::
          && b.metas[p].nodeId < Pow256(8) && b.metas[p].vectorOffset < Pow256(8)
          && b.metas[p].levelOffset == |GraphBytes(b.graph[..p])| < Pow256(8)
          && |b.graph[p]| == b.metas[p].maxLevel + 1 && b.metas[p].maxLevel <= b.header.maxLevel)
  }

  /** Every neighbour list of the built graph is found in the written bytes, at every level, and is
      empty above the point's top level. */
  lemma WrittenListsRead(b: Built, p: nat, level: nat)
    requires Writable(b) && p < |b.graph|
    ensures SpanHolds(GraphBytes(b.graph), SpanOf(b.metas[p], GraphBytes(b.graph), level),
                      if level < |b.graph[p]| then b.graph[p][level] else [])
  {
    if level < |b.graph[p]| {
      GraphSplit(b.graph, p);
      SpanOfWritten(GraphBytes(b.graph), b.metas[p].levelOffset, b.graph[p], level);
    }
  }

  // ---- The metadata file ----

  function MetricTag(m: DistanceMetric): nat {
    match m case Cosine => 0 case Euclidean => 1 case DotProduct => 2
  }

  function HeaderBytes(h: Header): Data {
    MAGIC + (LE(VERSION, 4) + (LE(h.pointCount, 8) + (LE(h.entryPoint, 4) + HeaderTail(h))))
  }

  function HeaderTail(h: Header): Data {
    LE(h.maxLevel, 2) + (LE(h.m, 2) + (LE(h.efConstruction, 2) + (LE(MetricTag(h.metric), 1) + (LE(0, 1) +
    (LE(h.dimension, 4) + LE(0, 4))))))
  }

  function PointMetaBytes(p: PointMeta): Data {
    LE(p.nodeId, 8) + (LE(p.vectorOffset, 8) + (LE(p.levelOffset, 8) + (LE(p.maxLevel, 2) +
    (LE(0, 2) + LE(0, 4)))))
  }

  function TableBytes(metas: seq<PointMeta>): Data {
    if metas == [] then [] else PointMetaBytes(metas[0]) + TableBytes(metas[1..])
  }

  function MetaBytes(b: Built): Data {
    HeaderBytes(b.header) + TableBytes(b.metas)
  }

  function ReadHeader(data: Data): Result<Header> {
    if |data| < HEADER_SIZE then Err
    else if data[0..4] != MAGIC then Err
    else if ReadAt(data, 4, 4) != Some(VERSION) then Err
    else
      match ReadAt(data, 26, 1)
      case Some(0) => Ok(HeaderFields(data, Cosine))
      case Some(1) => Ok(HeaderFields(data, Euclidean))
      case Some(2) => Ok(HeaderFields(data, DotProduct))
      case _ => Err
  }

  function HeaderFields(data: Data, metric: DistanceMetric): Header
    requires |data| >= HEADER_SIZE
  {
    Header(ReadAt(data, 8, 8).value, ReadAt(data, 16, 4).value, ReadAt(data, 20, 2).value,
           ReadAt(data, 22, 2).value, ReadAt(data, 24, 2).value, metric, ReadAt(data, 28, 4).value)
  }

  function ReadPointMeta(data: Data, index: nat): Result<PointMeta> {
    var off := HEADER_SIZE + index * POINT_META_SIZE;
    if off + 26 > |data| then Err
    else Ok(PointMeta(ReadAt(data, off, 8).value, ReadAt(data, off + 8, 8).value,
                      ReadAt(data, off + 16, 8).value, ReadAt(data, off + 24, 2).value))
  }

  lemma HeaderTailReads(data: Data, h: Header)
    requires Holds(data, 20, HeaderTail(h))
    requires h.maxLevel < Pow256(2) && h.m < Pow256(2) && h.efConstruction < Pow256(2)
    requires h.dimension < Pow256(4)
    ensures |data| >= HEADER_SIZE
    ensures ReadAt(data, 20, 2) == Some(h.maxLevel) && ReadAt(data, 22, 2) == Some(h.m)
    ensures ReadAt(data, 24, 2) == Some(h.efConstruction) && ReadAt(data, 26, 1) == Some(MetricTag(h.metric))
    ensures ReadAt(data, 28, 4) == Some(h.dimension)
  {
    PowersOf256();
    var r9 := LE(h.dimension, 4) + LE(0, 4);
    var r8 := LE(0, 1) + r9;
    var r7 := LE(MetricTag(h.metric), 1) + r8;
    var r6 := LE(h.efConstruction, 2) + r7;
    TakeField(data, 20, h.maxLevel, 2, LE(h.m, 2) + r6);
    TakeField(data, 22, h.m, 2, r6);
    TakeField(data, 24, h.efConstruction, 2, r7);
    TakeField(data, 26, MetricTag(h.metric), 1, r8);
    TakeField(data, 27, 0, 1, r9);
    TakeField(data, 28, h.dimension, 4, LE(0, 4));
  }

  lemma HeaderReads(data: Data, h: Header)
    requires Holds(data, 0, HeaderBytes(h))
    requires h.pointCount < Pow256(8) && h.entryPoint < Pow256(4)
    requires h.maxLevel < Pow256(2) && h.m < Pow256(2) && h.efConstruction < Pow256(2)
    requires h.dimension < Pow256(4)
    ensures ReadHeader(data) == Ok(h)
  {
    PowersOf256();
    var r3 := LE(h.entryPoint, 4) + HeaderTail(h);
    var r2 := LE(h.pointCount, 8) + r3;
    HoldsParts(data, 0, MAGIC, LE(VERSION, 4) + r2);
    TakeField(data, 4, VERSION, 4, r2);
    TakeField(data, 8, h.pointCount, 8, r3);
    TakeField(data, 16, h.entryPoint, 4, HeaderTail(h));
    HeaderTailReads(data, h);
  }

  lemma {:induction false} TableLength(metas: seq<PointMeta>)
    ensures |TableBytes(metas)| == POINT_META_SIZE * |metas|
    decreases |metas|
  {
    if metas != [] {
      TableLength(metas[1..]);
    }
  }

  lemma {:induction false} TableEntry(data: Data, start: nat, metas: seq<PointMeta>, i: nat)
    requires i < |metas| && Holds(data, start, TableBytes(metas))
    ensures Holds(data, start + POINT_META_SIZE * i, PointMetaBytes(metas[i]))
    decreases |metas|
  {
    HoldsParts(data, start, PointMetaBytes(metas[0]), TableBytes(metas[1..]));
    if i > 0 {
      TableEntry(data, start + POINT_META_SIZE, metas[1..], i - 1);
    }
  }

  lemma PointMetaReads(data: Data, i: nat, p: PointMeta)
    requires Holds(data, HEADER_SIZE + i * POINT_META_SIZE, PointMetaBytes(p))
    requires p.nodeId < Pow256(8) && p.vectorOffset < Pow256(8)
    requires p.levelOffset < Pow256(8) && p.maxLevel < Pow256(2)
    ensures ReadPointMeta(data, i) == Ok(p)
  {
    var off := HEADER_SIZE + i * POINT_META_SIZE;
    var r3 := LE(p.maxLevel, 2) + (LE(0, 2) + LE(0, 4));
    var r2 := LE(p.levelOffset, 8) + r3;
    var r1 := LE(p.vectorOffset, 8) + r2;
    TakeField(data, off, p.nodeId, 8, r1);
    TakeField(data, off + 8, p.vectorOffset, 8, r2);
    TakeField(data, off + 16, p.levelOffset, 8, r3);
    TakeField(data, off + 24, p.maxLevel, 2, LE(0, 2) + LE(0, 4));
  }

  lemma RowReads(data: Data, metas: seq<PointMeta>, i: nat)
    requires i < |metas| && Holds(data, HEADER_SIZE, TableBytes(metas))
    requires metas[i].nodeId < Pow256(8) && metas[i].vectorOffset < Pow256(8)
    requires metas[i].levelOffset < Pow256(8) && metas[i].maxLevel < Pow256(2)
    ensures ReadPointMeta(data, i) == Ok(metas[i])
  {
    TableEntry(data, HEADER_SIZE, metas, i);
    PointMetaReads(data, i, metas[i]);
  }

  lemma MetaHolds(b: Built)
    ensures |HeaderBytes(b.header)| == HEADER_SIZE
    ensures Holds(MetaBytes(b), 0, HeaderBytes(b.header)) && Holds(MetaBytes(b), HEADER_SIZE, TableBytes(b.metas))
  {
  }

  /** Both written files read back: the header, and every row of the point table. */
  lemma WrittenMetaReads(b: Built)
    requires Writable(b)
    ensures ReadHeader(MetaBytes(b)) == Ok(b.header)
    ensures |MetaBytes(b)| == HEADER_SIZE + POINT_META_SIZE * |b.metas|
    ensures forall i | 0 <= i < |b.metas| :: ReadPointMeta(MetaBytes(b), i) == Ok(b.metas[i])
  {
    PowersOf256();
    var data := MetaBytes(b);
    TableLength(b.metas);
    MetaHolds(b);
    HeaderReads(data, b.header);
    forall i | 0 <= i < |b.metas|
      ensures ReadPointMeta(data, i) == Ok(b.metas[i])
    {
      RowReads(data, b.metas, i);
    }
  }
}
