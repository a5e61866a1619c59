/** Write-ahead-log operations and their bytes. */
module WalFormat {
  import opened Bytes

  type U32 = x: nat | x < 0x1_0000_0000
  type U64 = x: nat | x < 0x1_0000_0000_0000_0000
  type I64 = x: int | -0x8000_0000_0000_0000 <= x < 0x8000_0000_0000_0000

  /** The serializer of property maps and the check that bytes are text. */
  datatype Library<!P> = Library(pack: P -> Result<Data>, unpack: Data -> Result<P>, isText: Data -> bool)

  const MAX_LABELS := 10
  const MAX_BYTES := 0x400_0000
  const MAX_TEXT := 0xFFFF

  datatype Node<P> = Node(id: U64, labels: seq<U32>, key: Data, props: P, createdAt: I64, updatedAt: I64, weight: U32,
                          dense: Option<seq<U32>>, sparse: Option<seq<(U32, U32)>>, lastWriteSeq: U64)

  datatype Edge<P> = Edge(id: U64, source: U64, target: U64, labelId: U32, props: P, createdAt: I64, updatedAt: I64,
                          weight: U32, validFrom: I64, validTo: I64, lastWriteSeq: U64)

  datatype WalOp<P> =
    | UpsertNode(node: Node<P>)
    | UpsertEdge(edge: Edge<P>)
    | DeleteNode(id: U64, deletedAt: I64)
    | DeleteEdge(id: U64, deletedAt: I64)
    | EnsureNodeLabel(name: Data, labelId: U32)
    | EnsureEdgeLabel(name: Data, labelId: U32)
    | BeginAtomicBatch(firstSeq: U64, opCount: U32)
    | CommitAtomicBatch(firstSeq: U64, opCount: U32)

  /** A node's labels: one to ten nonzero ids, ascending. */
  predicate CanonicalLabels(ids: seq<U32>) {
    && 0 < |ids| <= MAX_LABELS
    && Ascending(ids)
  }

  predicate Ascending(ids: seq<U32>) {
    (forall i | 0 <= i < |ids| :: ids[i] != 0) && forall i, j | 0 <= i < j < |ids| :: ids[i] < ids[j]
  }

  // ---- Signed integers ----

  function AsU64(i: I64): U64 { if i < 0 then i + 0x1_0000_0000_0000_0000 else i }

  function AsI64(w: U64): I64 { if w < 0x8000_0000_0000_0000 then w else w - 0x1_0000_0000_0000_0000 }

  // ---- Writing ----

  /** The pieces an operation is written as, in order. */
  datatype Pieces = End | Piece(bytes: Data, rest: Pieces)

  function Flat(p: Pieces): Data {
    match p
    case End => []
    case Piece(bytes, rest) => bytes + Flat(rest)
  }

  function IdPieces(ids: seq<U32>, rest: Pieces): Pieces {
    if ids == [] then rest else Piece(LE(ids[0], 4), IdPieces(ids[1..], rest))
  }

  function EntryPieces(entries: seq<(U32, U32)>, rest: Pieces): Pieces {
    if entries == [] then rest
    else Piece(LE(entries[0].0, 4), Piece(LE(entries[0].1, 4), EntryPieces(entries[1..], rest)))
  }

  function DensePieces(dense: Option<seq<U32>>, rest: Pieces): Pieces {
    match dense
    case None => rest
    case Some(values) => Piece(LE(|values|, 4), IdPieces(values, rest))
  }

  function SparsePieces(sparse: Option<seq<(U32, U32)>>, rest: Pieces): Pieces {
    match sparse
    case None => rest
    case Some(entries) => Piece(LE(|entries|, 4), EntryPieces(entries, rest))
  }

  function VectorFlags<P>(n: Node<P>): nat {
    (if n.dense.Some? then 1 else 0) + if n.sparse.Some? then 2 else 0
  }

  function TextPieces(text: Data, rest: Pieces): Pieces { Piece(LE(|text|, 2), Piece(text, rest)) }

  function BytesPieces(bytes: Data, rest: Pieces): Pieces { Piece(LE(|bytes|, 4), Piece(bytes, rest)) }

  function NodePieces<P>(n: Node<P>, props: Data): Pieces {
    Piece(LE(n.id, 8), Piece(LE(|n.labels|, 1), IdPieces(n.labels, TextPieces(n.key,
          Piece(LE(AsU64(n.createdAt), 8), Piece(LE(AsU64(n.updatedAt), 8), Piece(LE(n.weight, 4),
                BytesPieces(props, Piece(LE(VectorFlags(n), 1),
                                         DensePieces(n.dense, SparsePieces(n.sparse, End)))))))))))
  }

  function EdgePieces<P>(e: Edge<P>, props: Data): Pieces {
    Piece(LE(e.id, 8), Piece(LE(e.source, 8), Piece(LE(e.target, 8), Piece(LE(e.labelId, 4),
          Piece(LE(AsU64(e.createdAt), 8), Piece(LE(AsU64(e.updatedAt), 8), Piece(LE(e.weight, 4),
                BytesPieces(props, Piece(LE(AsU64(e.validFrom), 8), Piece(LE(AsU64(e.validTo), 8), End))))))))))
  }

  function Tag<P>(op: WalOp<P>): (t: byte)
    ensures t > 0
  {
    match op
    case UpsertNode(_) => 1
    case UpsertEdge(_) => 2
    case DeleteNode(_, _) => 3
    case DeleteEdge(_, _) => 4
    case EnsureNodeLabel(_, _) => 5
    case EnsureEdgeLabel(_, _) => 6
    case BeginAtomicBatch(_, _) => 7
    case CommitAtomicBatch(_, _) => 8
  }

  function PackProps<P>(lib: Library<P>, props: P): Result<Data> {
    var bytes :- lib.pack(props);
    if |bytes| > MAX_BYTES then Err else Ok(bytes)
  }

  /** What follows the tag; nothing when the operation exceeds a limit of the format. */
  function BodyPieces<P>(lib: Library<P>, op: WalOp<P>): Result<Pieces> {
    match op
    case UpsertNode(n) =>
      if |n.key| > MAX_TEXT then Err else var props :- PackProps(lib, n.props); Ok(NodePieces(n, props))
    case UpsertEdge(e) => var props :- PackProps(lib, e.props); Ok(EdgePieces(e, props))
    case DeleteNode(id, at) => Ok(Piece(LE(id, 8), Piece(LE(AsU64(at), 8), End)))
    case DeleteEdge(id, at) => Ok(Piece(LE(id, 8), Piece(LE(AsU64(at), 8), End)))
    case EnsureNodeLabel(name, labelId) =>
      if |name| > MAX_TEXT then Err else Ok(TextPieces(name, Piece(LE(labelId, 4), End)))
    case EnsureEdgeLabel(name, labelId) =>
      if |name| > MAX_TEXT then Err else Ok(TextPieces(name, Piece(LE(labelId, 4), End)))
    case BeginAtomicBatch(first, count) => Ok(Piece(LE(first, 8), Piece(LE(count, 4), End)))
    case CommitAtomicBatch(first, count) => Ok(Piece(LE(first, 8), Piece(LE(count, 4), End)))
  }

  function Encode<P>(lib: Library<P>, op: WalOp<P>): Result<Data> {
    var body :- BodyPieces(lib, op);
    Ok([Tag(op)] + Flat(body))
  }

  // ---- Reading: each function returns what it read and what is left ----

  function TakeInt(data: Data, width: nat): Result<(nat, Data)> {
    if |data| < width then Err else Ok((FromLE(data[..width]), data[width..]))
  }

  function TakeU32(data: Data): (r: Result<(U32, Data)>)
    ensures r.Ok? ==> |r.value.1| == |data| - 4
  {
    PowersOf256();
    var (n, rest) :- TakeInt(data, 4);
    FromLEBound(data[..4]);
    Ok((n, rest))
  }

  function TakeU64(data: Data): Result<(U64, Data)> {
    PowersOf256();
    var (n, rest) :- TakeInt(data, 8);
    FromLEBound(data[..8]);
    Ok((n, rest))
  }

  function TakeI64(data: Data): Result<(I64, Data)> {
    var (w, rest) :- TakeU64(data);
    Ok((AsI64(w), rest))
  }

  function TakeBlock(data: Data, n: nat): Result<(Data, Data)> {
    if |data| < n then Err else Ok((data[..n], data[n..]))
  }

  function TakeText<P>(lib: Library<P>, data: Data): Result<(Data, Data)> {
    var (n, rest) :- TakeInt(data, 2);
    var (text, rest') :- TakeBlock(rest, n);
    if lib.isText(text) then Ok((text, rest')) else Err
  }

  function TakeProps<P>(lib: Library<P>, data: Data): Result<(P, Data)> {
    var (n, rest) :- TakeInt(data, 4);
    if n > MAX_BYTES then Err
    else
      var (bytes, rest') :- TakeBlock(rest, n);
      var props :- lib.unpack(bytes);
      Ok((props, rest'))
  }

  /** So many words, added to those already read. */
  function TakeWords(data: Data, n: nat, sofar: seq<U32>): Result<(seq<U32>, Data)>
    decreases n
  {
    if n == 0 then Ok((sofar, data))
    else
      var (w, rest) :- TakeU32(data);
      TakeWords(rest, n - 1, sofar + [w])
  }

  function TakeEntries(data: Data, n: nat, sofar: seq<(U32, U32)>): Result<(seq<(U32, U32)>, Data)>
    decreases n
  {
    if n == 0 then Ok((sofar, data))
    else
      var (dimension, rest) :- TakeU32(data);
      var (weight, rest') :- TakeU32(rest);
      TakeEntries(rest', n - 1, sofar + [(dimension, weight)])
  }

  /** Label ids, each above the one before. */
  function TakeIds(data: Data, n: nat, sofar: seq<U32>): Result<(seq<U32>, Data)>
    decreases n
  {
    if n == 0 then Ok((sofar, data))
    else
      var (id, rest) :- TakeU32(data);
      if |sofar| > 0 && sofar[|sofar| - 1] >= id then Err else TakeIds(rest, n - 1, sofar + [id])
  }

  function TakeLabels(data: Data): Result<(seq<U32>, Data)> {
    var (count, rest) :- TakeInt(data, 1);
    if count == 0 || count > MAX_LABELS then Err
    else
      var (ids, rest') :- TakeIds(rest, count, []);
      if 0 in ids then Err else Ok((ids, rest'))
  }

  function TakeDense(data: Data, present: bool): Result<(Option<seq<U32>>, Data)> {
    if !present then Ok((None, data))
    else
      var (n, rest) :- TakeU32(data);
      var (values, rest') :- TakeWords(rest, n, []);
      Ok((Some(values), rest'))
  }

  function TakeSparse(data: Data, present: bool): Result<(Option<seq<(U32, U32)>>, Data)> {
    if !present then Ok((None, data))
    else
      var (n, rest) :- TakeU32(data);
      var (entries, rest') :- TakeEntries(rest, n, []);
      Ok((Some(entries), rest'))
  }

  datatype Vectors = Vectors(dense: Option<seq<U32>>, sparse: Option<seq<(U32, U32)>>)

  /** The two vectors to the end of the data; neither when nothing is left. */
  function TakeVectors(data: Data): Result<Vectors> {
    if data == [] then Ok(Vectors(None, None))
    else
      var (flags, rest) :- TakeInt(data, 1);
      if flags > 3 then Err
      else
        var (dense, rest') :- TakeDense(rest, flags % 2 == 1);
        var (sparse, rest'') :- TakeSparse(rest', flags / 2 == 1);
        if rest'' != [] then Err else Ok(Vectors(dense, sparse))
  }

  function DecodeNode<P>(lib: Library<P>, data: Data): (r: Result<WalOp<P>>)
    ensures r.Ok? ==> r.value.UpsertNode?
  {
    var (id, d1) :- TakeU64(data);
    var (labels, d2) :- TakeLabels(d1);
    var (key, d3) :- TakeText(lib, d2);
    var (createdAt, d4) :- TakeI64(d3);
    var (updatedAt, d5) :- TakeI64(d4);
    var (weight, d6) :- TakeU32(d5);
    var (props, d7) :- TakeProps(lib, d6);
    var v :- TakeVectors(d7);
    Ok(UpsertNode(Node(id, labels, key, props, createdAt, updatedAt, weight, v.dense, v.sparse, 0)))
  }

  function DecodeEdge<P>(lib: Library<P>, data: Data): (r: Result<WalOp<P>>)
    ensures r.Ok? ==> r.value.UpsertEdge?
  {
    var (id, d1) :- TakeU64(data);
    var (source, d2) :- TakeU64(d1);
    var (target, d3) :- TakeU64(d2);
    var (labelId, d4) :- TakeU32(d3);
    var (createdAt, d5) :- TakeI64(d4);
    var (updatedAt, d6) :- TakeI64(d5);
    var (weight, d7) :- TakeU32(d6);
    var (props, d8) :- TakeProps(lib, d7);
    var (validFrom, d9) :- TakeI64(d8);
    var (validTo, d10) :- TakeI64(d9);
    if d10 != [] then Err
    else Ok(UpsertEdge(Edge(id, source, target, labelId, props, createdAt, updatedAt, weight, validFrom, validTo, 0)))
  }

  function DecodeDelete<P>(data: Data, node: bool): (r: Result<WalOp<P>>)
    ensures r.Ok? ==> if node then r.value.DeleteNode? else r.value.DeleteEdge?
  {
    var (id, d1) :- TakeU64(data);
    var (at, d2) :- TakeI64(d1);
    if d2 != [] then Err else Ok(if node then DeleteNode(id, at) else DeleteEdge(id, at))
  }

  function DecodeLabel<P>(lib: Library<P>, data: Data, node: bool): (r: Result<WalOp<P>>)
    ensures r.Ok? ==> if node then r.value.EnsureNodeLabel? else r.value.EnsureEdgeLabel?
  {
    var (name, d1) :- TakeText(lib, data);
    var (labelId, d2) :- TakeU32(d1);
    if d2 != [] then Err else Ok(if node then EnsureNodeLabel(name, labelId) else EnsureEdgeLabel(name, labelId))
  }

  function DecodeBatch<P>(data: Data, begin: bool): (r: Result<WalOp<P>>)
    ensures r.Ok? ==> if begin then r.value.BeginAtomicBatch? else r.value.CommitAtomicBatch?
  {
    var (first, d1) :- TakeU64(data);
    var (count, d2) :- TakeU32(d1);
    if d2 != [] then Err else Ok(if begin then BeginAtomicBatch(first, count) else CommitAtomicBatch(first, count))
  }

  function Decode<P>(lib: Library<P>, data: Data): (r: Result<WalOp<P>>)
    ensures r.Ok? ==> data != [] && Tag(r.value) == data[0]
  {
    if data == [] then Err
    else
      var body := data[1..];
      match data[0]
      case 1 => DecodeNode(lib, body)
      case 2 => DecodeEdge(lib, body)
      case 3 => DecodeDelete(body, true)
      case 4 => DecodeDelete(body, false)
      case 5 => DecodeLabel(lib, body, true)
      case 6 => DecodeLabel(lib, body, false)
      case 7 => DecodeBatch(body, true)
      case 8 => DecodeBatch(body, false)
      case _ => Err
  }
}
