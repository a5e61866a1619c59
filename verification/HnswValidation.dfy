/** The full validator of the vector index files, and what acceptance buys: an index on which no
    search can fail. */
module HnswValidation {
  import opened Bytes
  import opened HnswFiles
  import VectorSearch

  datatype Expected = Expected(metric: DistanceMetric, dimension: nat, m: nat, efConstruction: nat)

  datatype Verdict = NoIndex | Valid(header: Header) | Corrupt

  /** Checks that the list at the cursor lies within the file and names only existing points;
      returns where it ends. */
  function ScanList(graph: Data, pointCount: nat, cursor: nat): Result<nat> {
    match SpanAt(graph, cursor, 0)
    case Err => Err
    case Ok((start, n)) =>
      if WordsInRange(graph, pointCount, start, n) then Ok(start + 4 * n) else Err
  }

  /** Steps over `count` such lists. */
  function ScanLists(graph: Data, pointCount: nat, cursor: nat, count: nat): Result<nat>
    decreases count
  {
    if count == 0 then Ok(cursor)
    else
      match ScanList(graph, pointCount, cursor)
      case Err => Err
      case Ok(end) => ScanLists(graph, pointCount, end, count - 1)
  }

  /** The i-th word from here is there and names an existing point. */
  predicate WordInRange(graph: Data, pointCount: nat, start: nat, i: nat) {
    var word := ReadAt(graph, start + 4 * i, 4);
    word.Some? && word.value < pointCount
  }

  predicate WordsInRange(graph: Data, pointCount: nat, start: nat, n: nat) {
    forall i | 0 <= i < n :: WordInRange(graph, pointCount, start, i)
  }

  /** A row of the point table is acceptable where the previous row left off. */
  predicate RowOk(h: Header, blobLength: nat, p: PointMeta, previous: Option<nat>, expected: nat) {
    && (previous.Some? ==> p.nodeId > previous.value)
    && p.vectorOffset + 4 * h.dimension <= blobLength
    && p.levelOffset == expected
    && p.maxLevel <= h.maxLevel
  }

  /** Where the lists end after all rows from `index` on have been accepted. */
  function ScanRows(meta: Data, graph: Data, h: Header, blobLength: nat, index: nat, previous: Option<nat>,
                    cursor: nat): Result<nat>
    decreases h.pointCount - index
  {
    if index >= h.pointCount then Ok(cursor)
    else
      match ReadPointMeta(meta, index)
      case Err => Err
      case Ok(p) =>
        if !RowOk(h, blobLength, p, previous, cursor) then Err
        else
          match ScanLists(graph, h.pointCount, cursor, p.maxLevel + 1)
          case Err => Err
          case Ok(end) => ScanRows(meta, graph, h, blobLength, index + 1, Some(p.nodeId), end)
  }

  /** What both checks ask of the header and the size of the point table. */
  predicate HeaderFits(h: Header, meta: Data, vectorCount: nat, expected: Option<Expected>) {
    && h.pointCount != 0 && h.pointCount == vectorCount
    && expected == Some(Expected(h.metric, h.dimension, h.m, h.efConstruction))
    && |meta| == HEADER_SIZE + h.pointCount * POINT_META_SIZE
    && h.entryPoint < h.pointCount
  }

  predicate HeaderOk(h: Header, meta: Data, vectorCount: nat, expected: Option<Expected>) {
    HeaderFits(h, meta, vectorCount, expected) && 4 * h.dimension < Pow256(4)
  }

  /** What the validator decides. */
  function Decision(meta: Data, graph: Data, blobLength: nat, vectorCount: nat, expected: Option<Expected>): Verdict {
    if meta == [] && graph == [] then (if vectorCount > 0 then Corrupt else NoIndex)
    else if meta == [] || graph == [] then Corrupt
    else
      match ReadHeader(meta)
      case Err => Corrupt
      case Ok(h) =>
        if HeaderOk(h, meta, vectorCount, expected) && ScanRows(meta, graph, h, blobLength, 0, None, 0) == Ok(|graph|)
        then Valid(h) else Corrupt
  }

  // ---- The validator's loops ----

  method CheckWords(graph: Data, pointCount: nat, start: nat, n: nat) returns (ok: bool)
    ensures ok <==> WordsInRange(graph, pointCount, start, n)
  {
    ok := true;
    var i := 0;
    while i < n && ok
      invariant 0 <= i <= n
      invariant ok <==> WordsInRange(graph, pointCount, start, i)
    {
      ok := WordInRange(graph, pointCount, start, i);
      i := i + 1;
    }
  }

  method CheckList(graph: Data, pointCount: nat, cursor: nat) returns (r: Result<nat>)
    ensures r == ScanList(graph, pointCount, cursor)
  {
    var span := ListAt(graph, cursor);
    if span.Err? {
      return Err;
    }
    var ok := CheckWords(graph, pointCount, span.value.0, span.value.1);
    return if ok then Ok(span.value.0 + 4 * span.value.1) else Err;
  }

  method CheckLists(graph: Data, pointCount: nat, cursor0: nat, count: nat) returns (r: Result<nat>)
    ensures r == ScanLists(graph, pointCount, cursor0, count)
  {
    var cursor: nat := cursor0;
    for k := 0 to count
      invariant ScanLists(graph, pointCount, cursor, count - k) == ScanLists(graph, pointCount, cursor0, count)
    {
      var end := CheckList(graph, pointCount, cursor);
      if end.Err? {
        return Err;
      }
      cursor := end.value;
    }
    return Ok(cursor);
  }

  method CheckRows(meta: Data, graph: Data, h: Header, blobLength: nat) returns (r: Result<nat>)
    ensures r == ScanRows(meta, graph, h, blobLength, 0, None, 0)
  {
    var previous: Option<nat>, cursor := None, 0;
    for index := 0 to h.pointCount
      invariant ScanRows(meta, graph, h, blobLength, index, previous, cursor) ==
                ScanRows(meta, graph, h, blobLength, 0, None, 0)
    {
      var row := ReadPointMeta(meta, index);
      if row.Err? || !RowOk(h, blobLength, row.value, previous, cursor) {
        return Err;
      }
      var end := CheckLists(graph, h.pointCount, cursor, row.value.maxLevel + 1);
      if end.Err? {
        return Err;
      }
      previous, cursor := Some(row.value.nodeId), end.value;
    }
    return Ok(cursor);
  }

  method ValidateFiles(meta: Data, graph: Data, blobLength: nat, vectorCount: nat, expected: Option<Expected>)
    returns (v: Verdict)
    ensures v == Decision(meta, graph, blobLength, vectorCount, expected)
  {
    if meta == [] && graph == [] {
      return if vectorCount > 0 then Corrupt else NoIndex;
    }
    if meta == [] || graph == [] {
      return Corrupt;
    }
    var header := ReadHeader(meta);
    if header.Err? || !HeaderOk(header.value, meta, vectorCount, expected) {
      return Corrupt;
    }
    var end := CheckRows(meta, graph, header.value, blobLength);
    return if end == Ok(|graph|) then Valid(header.value) else Corrupt;
  }

  // ---- The writer's files are accepted ----

  /** The rows refer to distinct vectors in node id order, all within the vector file, and every
      link names an existing point. */
  ghost predicate Consistent(b: Built, blobLength: nat) {
    && b.header.pointCount > 0
    && (forall p, q | 0 <= p < q < |b.metas| :: b.metas[p].nodeId < b.metas[q].nodeId)
    && (forall p | 0 <= p < |b.metas| :: b.metas[p].vectorOffset + 4 * b.header.dimension <= blobLength)
    && 4 * b.header.dimension < Pow256(4)
    && (forall p | 0 <= p < |b.graph| :: forall l | 0 <= l < |b.graph[p]| ::
          forall n | n in b.graph[p][l] :: n < b.header.pointCount)
  }

  /** A list the format can hold that names existing points only. */
  ghost predicate Fits(pointCount: nat, ns: Neighbors) {
    Storable(ns) && forall n | n in ns :: n < pointCount
  }

  ghost predicate AllFit(pointCount: nat, lists: PointLists) {
    lists == [] || (Fits(pointCount, lists[0]) && AllFit(pointCount, lists[1..]))
  }

  lemma {:induction false} AllListsFit(pointCount: nat, lists: PointLists)
    requires forall l | 0 <= l < |lists| :: Fits(pointCount, lists[l])
    ensures AllFit(pointCount, lists)
    decreases |lists|
  {
    if lists != [] {
      AllListsFit(pointCount, lists[1..]);
    }
  }

  lemma WrittenListScans(data: Data, pointCount: nat, cursor: nat, ns: Neighbors)
    requires Holds(data, cursor, ListBytes(ns)) && Fits(pointCount, ns)
    ensures ScanList(data, pointCount, cursor) == Ok(cursor + 4 + 4 * |ns|)
  {
    ListReads(data, cursor, ns);
    WordsLength(ns);
    var start := cursor + 4;
    forall i: nat | i < |ns|
      ensures WordInRange(data, pointCount, start, i)
    {
      assert ns[i] in ns;
    }
  }

  /** The bytes a point's lists take. */
  function ListsSize(lists: PointLists): nat {
    if lists == [] then 0 else 4 + 4 * |lists[0]| + ListsSize(lists[1..])
  }

  lemma {:induction false} ListsSizeIsLength(lists: PointLists)
    ensures |PointBytes(lists)| == ListsSize(lists)
    decreases |lists|
  {
    if lists != [] {
      WordsLength(lists[0]);
      ListsSizeIsLength(lists[1..]);
    }
  }

  lemma ScanStep(data: Data, pointCount: nat, cursor: nat, next: nat, rest: nat, end: nat)
    requires ScanList(data, pointCount, cursor) == Ok(next) && ScanLists(data, pointCount, next, rest) == Ok(end)
    ensures ScanLists(data, pointCount, cursor, rest + 1) == Ok(end)
  {
  }

  /** Every list of a point scans to where the next one begins. */
  lemma {:induction false} WrittenListsScan(data: Data, pointCount: nat, cursor: nat, lists: PointLists)
    requires Holds(data, cursor, PointBytes(lists)) && AllFit(pointCount, lists)
    ensures ScanLists(data, pointCount, cursor, |lists|) == Ok(cursor + ListsSize(lists))
    decreases |lists|
  {
    if lists != [] {
      var head, tail := lists[0], lists[1..];
      var next := cursor + 4 + 4 * |head|;
      FirstListHeld(data, cursor, lists);
      WrittenListScans(data, pointCount, cursor, head);
      WrittenListsScan(data, pointCount, next, tail);
      ScanStep(data, pointCount, cursor, next, |tail|, next + ListsSize(tail));
    }
  }

  lemma WrittenRowLists(b: Built, blobLength: nat, index: nat)
    requires Writable(b) && Consistent(b, blobLength) && index < |b.metas|
    ensures ScanLists(GraphBytes(b.graph), b.header.pointCount, |GraphBytes(b.graph[..index])|, |b.graph[index]|)
            == Ok(|GraphBytes(b.graph[..index + 1])|)
  {
    GraphSplit(b.graph, index);
    AllListsFit(b.header.pointCount, b.graph[index]);
    WrittenListsScan(GraphBytes(b.graph), b.header.pointCount, |GraphBytes(b.graph[..index])|, b.graph[index]);
    ListsSizeIsLength(b.graph[index]);
  }

  lemma WrittenRow(b: Built, blobLength: nat, index: nat)
    requires Writable(b) && Consistent(b, blobLength) && index < |b.metas|
    ensures ReadPointMeta(MetaBytes(b), index) == Ok(b.metas[index])
    ensures RowOk(b.header, blobLength, b.metas[index],
                  if index == 0 then None else Some(b.metas[index - 1].nodeId), |GraphBytes(b.graph[..index])|)
    ensures ScanLists(GraphBytes(b.graph), b.header.pointCount, |GraphBytes(b.graph[..index])|, b.metas[index].maxLevel + 1)
            == Ok(|GraphBytes(b.graph[..index + 1])|)
  {
    WrittenMetaReads(b);
    WrittenRowLists(b, blobLength, index);
  }

  lemma {:induction false} WrittenRowsScan(b: Built, blobLength: nat, index: nat)
    requires Writable(b) && Consistent(b, blobLength) && index <= |b.metas|
    ensures var cursor := |GraphBytes(b.graph[..index])|;
            var previous := if index == 0 then None else Some(b.metas[index - 1].nodeId);
            ScanRows(MetaBytes(b), GraphBytes(b.graph), b.header, blobLength, index, previous, cursor) ==
            Ok(|GraphBytes(b.graph)|)
    decreases |b.metas| - index
  {
    if index == |b.metas| {
      assert b.graph[..index] == b.graph;
    } else {
      WrittenRow(b, blobLength, index);
      WrittenRowsScan(b, blobLength, index + 1);
    }
  }

  /** The validator accepts every pair of files the writer produces. */
  lemma WrittenFilesAccepted(b: Built, blobLength: nat)
    requires Writable(b) && Consistent(b, blobLength)
    ensures Decision(MetaBytes(b), GraphBytes(b.graph), blobLength, |b.metas|,
                     Some(Expected(b.header.metric, b.header.dimension, b.header.m, b.header.efConstruction)))
            == Valid(b.header)
  {
    WrittenMetaReads(b);
    WrittenRowsScan(b, blobLength, 0);
    assert b.graph[..0] == [];
    GraphSplit(b.graph, 0);
    assert |b.graph[0]| > 0;
    assert |PointBytes(b.graph[0])| >= |ListBytes(b.graph[0][0])| >= 4;
  }

  // ---- What acceptance means for a search ----

  function Stored(graph: Data, span: Result<(nat, nat)>): seq<nat> {
    match span
    case Err => []
    case Ok((start, n)) =>
      seq(n, i requires 0 <= i < n => match ReadAt(graph, start + 4 * i, 4) case Some(v) => v case None => 0)
  }

  function LoadPoint(meta: Data, graph: Data, i: nat): VectorSearch.Point {
    match ReadPointMeta(meta, i)
    case Err => VectorSearch.Point(0, [])
    case Ok(p) =>
      VectorSearch.Point(p.nodeId, seq(p.maxLevel + 1, l requires 0 <= l => Stored(graph, SpanOf(p, graph, l))))
  }

  /** The index a search sees in the two files. */
  function LoadIndex(meta: Data, graph: Data, h: Header): VectorSearch.Index {
    VectorSearch.Index(h.pointCount, h.entryPoint, h.maxLevel,
                       seq(h.pointCount, i requires 0 <= i => LoadPoint(meta, graph, i)))
  }

  function BuiltIndex(b: Built): VectorSearch.Index
    requires |b.metas| == |b.graph|
  {
    VectorSearch.Index(b.header.pointCount, b.header.entryPoint, b.header.maxLevel,
                       seq(|b.graph|, i requires 0 <= i < |b.graph| => VectorSearch.Point(b.metas[i].nodeId, b.graph[i])))
  }

  lemma StoredIsHeld(graph: Data, span: Result<(nat, nat)>, ns: Neighbors)
    requires SpanHolds(graph, span, ns)
    ensures Stored(graph, span) == ns
  {
  }

  /** Searching the written files is searching the built graph. */
  lemma WrittenIndexLoads(b: Built)
    requires Writable(b)
    ensures LoadIndex(MetaBytes(b), GraphBytes(b.graph), b.header) == BuiltIndex(b)
  {
    WrittenMetaReads(b);
    var meta, graph := MetaBytes(b), GraphBytes(b.graph);
    forall i | 0 <= i < |b.graph|
      ensures LoadPoint(meta, graph, i) == VectorSearch.Point(b.metas[i].nodeId, b.graph[i])
    {
      var loaded := LoadPoint(meta, graph, i).levels;
      forall l | 0 <= l < |b.graph[i]|
        ensures loaded[l] == b.graph[i][l]
      {
        WrittenListsRead(b, i, l);
        StoredIsHeld(graph, SpanOf(b.metas[i], graph, l), b.graph[i][l]);
      }
      assert loaded == b.graph[i];
    }
  }

  lemma {:induction false} ScannedListInRange(graph: Data, pointCount: nat, cursor: nat, count: nat, level: nat)
    requires level < count && ScanLists(graph, pointCount, cursor, count).Ok?
    ensures SpanAt(graph, cursor, level).Ok?
    ensures var (start, n) := SpanAt(graph, cursor, level).value; WordsInRange(graph, pointCount, start, n)
    decreases level
  {
    if level > 0 {
      var end := ScanList(graph, pointCount, cursor).value;
      ScannedListInRange(graph, pointCount, end, count - 1, level - 1);
      assert SpanAt(graph, cursor, level) == SpanAt(graph, end, level - 1);
    }
  }

  lemma {:induction false} ScannedRow(meta: Data, graph: Data, h: Header, blobLength: nat, index: nat,
                                      previous: Option<nat>, cursor: nat, i: nat)
    requires index <= i < h.pointCount
    requires ScanRows(meta, graph, h, blobLength, index, previous, cursor).Ok?
    ensures ReadPointMeta(meta, i).Ok?
    ensures var p := ReadPointMeta(meta, i).value;
            ScanLists(graph, h.pointCount, p.levelOffset, p.maxLevel + 1).Ok?
    decreases i - index
  {
    var p := ReadPointMeta(meta, index).value;
    if index < i {
      var end := ScanLists(graph, h.pointCount, cursor, p.maxLevel + 1).value;
      ScannedRow(meta, graph, h, blobLength, index + 1, Some(p.nodeId), end, i);
    }
  }

  lemma StoredInRange(graph: Data, pointCount: nat, span: Result<(nat, nat)>, n: nat)
    requires span.Ok? && WordsInRange(graph, pointCount, span.value.0, span.value.1)
    requires n in Stored(graph, span)
    ensures n < pointCount
  {
    var list := Stored(graph, span);
    var i :| 0 <= i < |list| && list[i] == n;
    assert WordInRange(graph, pointCount, span.value.0, i);
  }

  lemma LoadedLinkInRange(graph: Data, pointCount: nat, row: PointMeta, level: nat, n: nat)
    requires ScanLists(graph, pointCount, row.levelOffset, row.maxLevel + 1).Ok?
    requires level <= row.maxLevel && n in Stored(graph, SpanOf(row, graph, level))
    ensures n < pointCount
  {
    ScannedListInRange(graph, pointCount, row.levelOffset, row.maxLevel + 1, level);
    StoredInRange(graph, pointCount, SpanAt(graph, row.levelOffset, level), n);
  }

  /** Accepted files give an index in which every stored link and the entry point name an existing
      point, so both searches answer on it. */
  lemma AcceptedFilesAreSound(meta: Data, graph: Data, blobLength: nat, vectorCount: nat, expected: Option<Expected>)
    requires Decision(meta, graph, blobLength, vectorCount, expected).Valid?
    ensures VectorSearch.Sound(LoadIndex(meta, graph, Decision(meta, graph, blobLength, vectorCount, expected).header))
  {
    var h := Decision(meta, graph, blobLength, vectorCount, expected).header;
    var ix := LoadIndex(meta, graph, h);
    forall p: nat, level: nat, n | n in VectorSearch.LinksAt(ix, level)(p)
      ensures n < ix.pointCount
    {
      ScannedRow(meta, graph, h, blobLength, 0, None, 0, p);
      LoadedLinkInRange(graph, h.pointCount, ReadPointMeta(meta, p).value, level, n);
    }
  }

  // ---- The check on opening ----

  /** What the program decides when it opens the files. It reads neither the point table nor the lists. */
  function OpenDecision(meta: Data, graph: Data, vectorCount: nat, expected: Option<Expected>): Verdict {
    if meta == [] && graph == [] then NoIndex
    else if meta == [] || graph == [] || vectorCount == 0 then Corrupt
    else
      match ReadHeader(meta)
      case Err => Corrupt
      case Ok(h) => if HeaderFits(h, meta, vectorCount, expected) then Valid(h) else Corrupt
  }

  /** Everything the full validator accepts can be opened, and the opening check cannot tell two graph
      files apart. */
  lemma OpeningAcceptsMore(meta: Data, graph: Data, graph': Data, blobLength: nat, vectorCount: nat,
                           expected: Option<Expected>)
    requires graph != [] && graph' != []
    ensures Decision(meta, graph, blobLength, vectorCount, expected).Valid? ==>
              OpenDecision(meta, graph, vectorCount, expected) == Decision(meta, graph, blobLength, vectorCount, expected)
    ensures OpenDecision(meta, graph, vectorCount, expected) == OpenDecision(meta, graph', vectorCount, expected)
  {
  }

  /** Two points, of which the entry links to one far outside. */
  function FarLinkBuilt(expected: Expected): Built {
    Built(Header(2, 0, 0, expected.m, expected.efConstruction, expected.metric, expected.dimension),
          [PointMeta(10, 0, 0, 0), PointMeta(11, 0, 8, 0)], [[[128]], [[]]])
  }

  lemma FarLinkWritable(expected: Expected)
    requires expected.m < Pow256(2) && expected.efConstruction < Pow256(2) && expected.dimension < Pow256(4)
    ensures Writable(FarLinkBuilt(expected))
  {
    PowersOf256();
    var graph: Graph := [[[128]], [[]]];
    ListLength([128]);
    assert graph[..0] == [] && graph[..1] == [[[128]]];
    assert PointBytes([[128]]) == ListBytes([128]) + PointBytes([[128]][1..]);
    assert GraphBytes([[[128]]]) == PointBytes([[128]]) + GraphBytes([[[128]]][1..]);
  }

  /** Whatever the configuration, there are files that the program opens, although the full validator
      rejects them, and that load as the index on which a scoped search runs out of bounds. */
  lemma FarLinkOpens(expected: Expected, blobLength: nat)
    requires expected.m < Pow256(2) && expected.efConstruction < Pow256(2) && expected.dimension < Pow256(4)
    ensures var b := FarLinkBuilt(expected);
            var meta, graph := MetaBytes(b), GraphBytes(b.graph);
            && OpenDecision(meta, graph, 2, Some(expected)) == Valid(b.header)
            && Decision(meta, graph, blobLength, 2, Some(expected)) == Corrupt
            && LoadIndex(meta, graph, b.header) == VectorSearch.FarLinkIndex()
  {
    var b := FarLinkBuilt(expected);
    FarLinkWritable(expected);
    WrittenMetaReads(b);
    WrittenIndexLoads(b);
    GraphSplit(b.graph, 0);
    FarLinkLoads(expected);
    assert 128 in VectorSearch.LinksAt(VectorSearch.FarLinkIndex(), 0)(0);
    if Decision(MetaBytes(b), GraphBytes(b.graph), blobLength, 2, Some(expected)).Valid? {
      AcceptedFilesAreSound(MetaBytes(b), GraphBytes(b.graph), blobLength, 2, Some(expected));
    }
  }

  lemma FarLinkLoads(expected: Expected)
    ensures BuiltIndex(FarLinkBuilt(expected)) == VectorSearch.FarLinkIndex()
    ensures GraphBytes(FarLinkBuilt(expected).graph) != []
  {
    var ix, far := BuiltIndex(FarLinkBuilt(expected)), VectorSearch.FarLinkIndex();
    assert |ix.points| == |far.points| && ix.points[0] == far.points[0] && ix.points[1] == far.points[1];
    assert ix.points == far.points;
    assert |ListBytes([128])| >= 4;
  }
}
