/** Encoding a log operation into a reused buffer and decoding it again. */
module WalCodec {
  import opened Bytes
  import opened WalFormat

  // ---- Each field reads back, and what follows it is left ----

  lemma PeelBlock(d: Data, rest: Pieces, extra: Data)
    ensures Flat(Piece(d, rest)) + extra == d + (Flat(rest) + extra)
    ensures (Flat(Piece(d, rest)) + extra)[..|d|] == d
    ensures (Flat(Piece(d, rest)) + extra)[|d|..] == Flat(rest) + extra
  {
  }

  lemma PeelInt(n: nat, width: nat, rest: Pieces, extra: Data)
    requires n < Pow256(width)
    ensures TakeInt(Flat(Piece(LE(n, width), rest)) + extra, width) == Ok((n, Flat(rest) + extra))
  {
    PeelBlock(LE(n, width), rest, extra);
    LERoundTrip(n, width);
  }

  lemma PeelU32(n: U32, rest: Pieces, extra: Data)
    ensures TakeU32(Flat(Piece(LE(n, 4), rest)) + extra) == Ok((n, Flat(rest) + extra))
  {
    PowersOf256();
    PeelInt(n, 4, rest, extra);
  }

  lemma PeelU64(n: U64, rest: Pieces, extra: Data)
    ensures TakeU64(Flat(Piece(LE(n, 8), rest)) + extra) == Ok((n, Flat(rest) + extra))
  {
    PowersOf256();
    PeelInt(n, 8, rest, extra);
  }

  lemma PeelI64(i: I64, rest: Pieces, extra: Data)
    ensures TakeI64(Flat(Piece(LE(AsU64(i), 8), rest)) + extra) == Ok((i, Flat(rest) + extra))
  {
    PeelU64(AsU64(i), rest, extra);
  }

  lemma PeelText<P>(lib: Library<P>, text: Data, rest: Pieces, extra: Data)
    requires lib.isText(text) && |text| <= MAX_TEXT
    ensures TakeText(lib, Flat(TextPieces(text, rest)) + extra) == Ok((text, Flat(rest) + extra))
  {
    PowersOf256();
    PeelInt(|text|, 2, Piece(text, rest), extra);
    PeelBlock(text, rest, extra);
  }

  lemma PeelProps<P>(lib: Library<P>, props: P, bytes: Data, rest: Pieces, extra: Data)
    requires lib.unpack(bytes) == Ok(props) && |bytes| <= MAX_BYTES
    ensures TakeProps(lib, Flat(BytesPieces(bytes, rest)) + extra) == Ok((props, Flat(rest) + extra))
  {
    PowersOf256();
    PeelInt(|bytes|, 4, Piece(bytes, rest), extra);
    PeelBlock(bytes, rest, extra);
  }

  lemma {:induction false} PeelWords(words: seq<U32>, sofar: seq<U32>, rest: Pieces, extra: Data)
    ensures TakeWords(Flat(IdPieces(words, rest)) + extra, |words|, sofar) == Ok((sofar + words, Flat(rest) + extra))
    decreases |words|
  {
    if words == [] {
      assert sofar + words == sofar;
    } else {
      PeelU32(words[0], IdPieces(words[1..], rest), extra);
      PeelWords(words[1..], sofar + [words[0]], rest, extra);
      assert sofar + [words[0]] + words[1..] == sofar + words;
    }
  }

  lemma {:induction false} PeelEntries(entries: seq<(U32, U32)>, sofar: seq<(U32, U32)>, rest: Pieces, extra: Data)
    ensures TakeEntries(Flat(EntryPieces(entries, rest)) + extra, |entries|, sofar)
            == Ok((sofar + entries, Flat(rest) + extra))
    decreases |entries|
  {
    if entries == [] {
      assert sofar + entries == sofar;
    } else {
      var (dimension, weight) := entries[0];
      PeelU32(dimension, Piece(LE(weight, 4), EntryPieces(entries[1..], rest)), extra);
      PeelU32(weight, EntryPieces(entries[1..], rest), extra);
      PeelEntries(entries[1..], sofar + [entries[0]], rest, extra);
      assert sofar + [entries[0]] + entries[1..] == sofar + entries;
    }
  }

  lemma {:induction false} PeelIds(ids: seq<U32>, sofar: seq<U32>, rest: Pieces, extra: Data)
    requires Ascending(sofar + ids)
    ensures TakeIds(Flat(IdPieces(ids, rest)) + extra, |ids|, sofar) == Ok((sofar + ids, Flat(rest) + extra))
    decreases |ids|
  {
    if ids == [] {
      assert sofar + ids == sofar;
    } else {
      assert |sofar| > 0 ==> (sofar + ids)[|sofar| - 1] < (sofar + ids)[|sofar|];
      PeelU32(ids[0], IdPieces(ids[1..], rest), extra);
      assert sofar + [ids[0]] + ids[1..] == sofar + ids;
      PeelIds(ids[1..], sofar + [ids[0]], rest, extra);
    }
  }

  lemma PeelLabels(ids: seq<U32>, rest: Pieces, extra: Data)
    requires CanonicalLabels(ids)
    ensures TakeLabels(Flat(Piece(LE(|ids|, 1), IdPieces(ids, rest))) + extra) == Ok((ids, Flat(rest) + extra))
  {
    PowersOf256();
    PeelInt(|ids|, 1, IdPieces(ids, rest), extra);
    assert [] + ids == ids;
    PeelIds(ids, [], rest, extra);
  }

  lemma PeelDense(dense: Option<seq<U32>>, rest: Pieces, extra: Data)
    requires dense.Some? ==> |dense.value| < 0x1_0000_0000
    ensures TakeDense(Flat(DensePieces(dense, rest)) + extra, dense.Some?) == Ok((dense, Flat(rest) + extra))
  {
    if dense.Some? {
      PeelU32(|dense.value|, IdPieces(dense.value, rest), extra);
      PeelWords(dense.value, [], rest, extra);
      assert [] + dense.value == dense.value;
    }
  }

  lemma PeelSparse(sparse: Option<seq<(U32, U32)>>, rest: Pieces, extra: Data)
    requires sparse.Some? ==> |sparse.value| < 0x1_0000_0000
    ensures TakeSparse(Flat(SparsePieces(sparse, rest)) + extra, sparse.Some?) == Ok((sparse, Flat(rest) + extra))
  {
    if sparse.Some? {
      PeelU32(|sparse.value|, EntryPieces(sparse.value, rest), extra);
      PeelEntries(sparse.value, [], rest, extra);
      assert [] + sparse.value == sparse.value;
    }
  }

  function VectorPieces<P>(n: Node<P>): Pieces {
    Piece(LE(VectorFlags(n), 1), DensePieces(n.dense, SparsePieces(n.sparse, End)))
  }

  lemma PeelVectors<P>(n: Node<P>, extra: Data)
    requires n.dense.Some? ==> |n.dense.value| < 0x1_0000_0000
    requires n.sparse.Some? ==> |n.sparse.value| < 0x1_0000_0000
    ensures TakeVectors(Flat(VectorPieces(n)) + extra) == if extra == [] then Ok(Vectors(n.dense, n.sparse)) else Err
  {
    PowersOf256();
    PeelInt(VectorFlags(n), 1, DensePieces(n.dense, SparsePieces(n.sparse, End)), extra);
    PeelDense(n.dense, SparsePieces(n.sparse, End), extra);
    PeelSparse(n.sparse, End, extra);
    assert Flat(End) + extra == extra;
  }

  // ---- Whole operations ----

  /** What the types promise of an operation, and lists short enough for their length fields. */
  predicate WellTyped<P>(lib: Library<P>, op: WalOp<P>) {
    match op
    case UpsertNode(n) =>
      && CanonicalLabels(n.labels) && lib.isText(n.key)
      && (n.dense.Some? ==> |n.dense.value| < 0x1_0000_0000)
      && (n.sparse.Some? ==> |n.sparse.value| < 0x1_0000_0000)
    case EnsureNodeLabel(name, _) => lib.isText(name)
    case EnsureEdgeLabel(name, _) => lib.isText(name)
    case _ => true
  }

  /** The operation with its write sequence number forgotten. */
  function WithoutSequence<P>(op: WalOp<P>): WalOp<P> {
    match op
    case UpsertNode(n) => UpsertNode(n.(lastWriteSeq := 0))
    case UpsertEdge(e) => UpsertEdge(e.(lastWriteSeq := 0))
    case _ => op
  }

  /** Packed properties unpack to themselves. */
  ghost predicate Faithful<P(!new)>(lib: Library<P>) {
    forall props :: lib.pack(props).Ok? ==> lib.unpack(lib.pack(props).value) == Ok(props)
  }

  /** Done when nothing is left, and rejected otherwise. */
  function Finished<T>(value: T, extra: Data): Result<T> { if extra == [] then Ok(value) else Err }

  lemma NodeReads<P>(lib: Library<P>, n: Node<P>, props: Data, extra: Data)
    requires WellTyped(lib, UpsertNode(n)) && |n.key| <= MAX_TEXT
    requires lib.unpack(props) == Ok(n.props) && |props| <= MAX_BYTES
    ensures DecodeNode(lib, Flat(NodePieces(n, props)) + extra) == Finished(UpsertNode(n.(lastWriteSeq := 0)), extra)
  {
    var p7 := VectorPieces(n);
    var p6 := BytesPieces(props, p7);
    var p5 := Piece(LE(n.weight, 4), p6);
    var p4 := Piece(LE(AsU64(n.updatedAt), 8), p5);
    var p3 := Piece(LE(AsU64(n.createdAt), 8), p4);
    var p2 := TextPieces(n.key, p3);
    var p1 := Piece(LE(|n.labels|, 1), IdPieces(n.labels, p2));
    PeelU64(n.id, p1, extra);
    PeelLabels(n.labels, p2, extra);
    PeelText(lib, n.key, p3, extra);
    PeelI64(n.createdAt, p4, extra);
    PeelI64(n.updatedAt, p5, extra);
    PeelU32(n.weight, p6, extra);
    PeelProps(lib, n.props, props, p7, extra);
    PeelVectors(n, extra);
  }

  lemma EdgeReads<P>(lib: Library<P>, e: Edge<P>, props: Data, extra: Data)
    requires lib.unpack(props) == Ok(e.props) && |props| <= MAX_BYTES
    ensures DecodeEdge(lib, Flat(EdgePieces(e, props)) + extra) == Finished(UpsertEdge(e.(lastWriteSeq := 0)), extra)
  {
    var p9 := Piece(LE(AsU64(e.validTo), 8), End);
    var p8 := Piece(LE(AsU64(e.validFrom), 8), p9);
    var p7 := BytesPieces(props, p8);
    var p6 := Piece(LE(e.weight, 4), p7);
    var p5 := Piece(LE(AsU64(e.updatedAt), 8), p6);
    var p4 := Piece(LE(AsU64(e.createdAt), 8), p5);
    var p3 := Piece(LE(e.labelId, 4), p4);
    var p2 := Piece(LE(e.target, 8), p3);
    var p1 := Piece(LE(e.source, 8), p2);
    PeelU64(e.id, p1, extra);
    PeelU64(e.source, p2, extra);
    PeelU64(e.target, p3, extra);
    PeelU32(e.labelId, p4, extra);
    PeelI64(e.createdAt, p5, extra);
    PeelI64(e.updatedAt, p6, extra);
    PeelU32(e.weight, p7, extra);
    PeelProps(lib, e.props, props, p8, extra);
    PeelI64(e.validFrom, p9, extra);
    PeelI64(e.validTo, End, extra);
    assert Flat(End) + extra == extra;
  }

  lemma DeleteReads<P>(id: U64, at: I64, node: bool, extra: Data)
    ensures DecodeDelete<P>(Flat(Piece(LE(id, 8), Piece(LE(AsU64(at), 8), End))) + extra, node)
            == Finished(if node then DeleteNode(id, at) else DeleteEdge(id, at), extra)
  {
    PeelU64(id, Piece(LE(AsU64(at), 8), End), extra);
    PeelI64(at, End, extra);
    assert Flat(End) + extra == extra;
  }

  lemma LabelReads<P>(lib: Library<P>, name: Data, labelId: U32, node: bool, extra: Data)
    requires lib.isText(name) && |name| <= MAX_TEXT
    ensures DecodeLabel(lib, Flat(TextPieces(name, Piece(LE(labelId, 4), End))) + extra, node)
            == Finished(if node then EnsureNodeLabel(name, labelId) else EnsureEdgeLabel(name, labelId), extra)
  {
    PeelText(lib, name, Piece(LE(labelId, 4), End), extra);
    PeelU32(labelId, End, extra);
    assert Flat(End) + extra == extra;
  }

  lemma BatchReads<P>(first: U64, count: U32, begin: bool, extra: Data)
    ensures DecodeBatch<P>(Flat(Piece(LE(first, 8), Piece(LE(count, 4), End))) + extra, begin)
            == Finished(if begin then BeginAtomicBatch(first, count) else CommitAtomicBatch(first, count), extra)
  {
    PeelU64(first, Piece(LE(count, 4), End), extra);
    PeelU32(count, End, extra);
    assert Flat(End) + extra == extra;
  }

  /** Decoding an encoded operation gives it back but for the write sequence, which is zero; and the
      same bytes with anything after them are rejected. */
  lemma DecodeInvertsEncode<P(!new)>(lib: Library<P>, op: WalOp<P>, extra: Data)
    requires Faithful(lib) && WellTyped(lib, op) && Encode(lib, op).Ok?
    ensures Decode(lib, Encode(lib, op).value + extra) == Finished(WithoutSequence(op), extra)
  {
    var body := BodyPieces(lib, op).value;
    assert (Encode(lib, op).value + extra)[1..] == Flat(body) + extra;
    match op
    case UpsertNode(n) => NodeReads(lib, n, PackProps(lib, n.props).value, extra);
    case UpsertEdge(e) => EdgeReads(lib, e, PackProps(lib, e.props).value, extra);
    case DeleteNode(id, at) => DeleteReads<P>(id, at, true, extra);
    case DeleteEdge(id, at) => DeleteReads<P>(id, at, false, extra);
    case EnsureNodeLabel(name, labelId) => LabelReads(lib, name, labelId, true, extra);
    case EnsureEdgeLabel(name, labelId) => LabelReads(lib, name, labelId, false, extra);
    case BeginAtomicBatch(first, count) => BatchReads<P>(first, count, true, extra);
    case CommitAtomicBatch(first, count) => BatchReads<P>(first, count, false, extra);
  }

  /** Two operations with one encoding differ at most in the write sequence. */
  lemma EncodingIsUnique<P(!new)>(lib: Library<P>, a: WalOp<P>, b: WalOp<P>)
    requires Faithful(lib) && WellTyped(lib, a) && WellTyped(lib, b)
    requires Encode(lib, a).Ok? && Encode(lib, a) == Encode(lib, b)
    ensures WithoutSequence(a) == WithoutSequence(b)
  {
    DecodeInvertsEncode(lib, a, []);
    DecodeInvertsEncode(lib, b, []);
  }

  // ---- What any decoded node satisfies ----

  lemma {:induction false} TakenIds(data: Data, n: nat, sofar: seq<U32>)
    requires TakeIds(data, n, sofar).Ok?
    requires forall i, j | 0 <= i < j < |sofar| :: sofar[i] < sofar[j]
    ensures var ids := TakeIds(data, n, sofar).value.0;
            |ids| == |sofar| + n && forall i, j | 0 <= i < j < |ids| :: ids[i] < ids[j]
    decreases n
  {
    if n > 0 {
      var (id, rest) := TakeU32(data).value;
      TakenIds(rest, n - 1, sofar + [id]);
    }
  }

  /** What every node that is read satisfies. */
  predicate SoundNode<P>(lib: Library<P>, n: Node<P>) {
    CanonicalLabels(n.labels) && lib.isText(n.key) && n.lastWriteSeq == 0
  }

  lemma TakenLabels(data: Data)
    ensures TakeLabels(data).Ok? ==> CanonicalLabels(TakeLabels(data).value.0)
  {
    if TakeLabels(data).Ok? {
      var (count, rest) := TakeInt(data, 1).value;
      TakenIds(rest, count, []);
      assert 0 !in TakeLabels(data).value.0;
    }
  }

  lemma ReadNodeIsSound<P>(lib: Library<P>, body: Data)
    ensures DecodeNode(lib, body).Ok? ==>
              DecodeNode(lib, body).value.UpsertNode? && SoundNode(lib, DecodeNode(lib, body).value.node)
  {
    if DecodeNode(lib, body).Ok? {
      TakenLabels(TakeU64(body).value.1);
    }
  }

  lemma NodeTag<P>(lib: Library<P>, data: Data)
    requires data != [] && data[0] == 1
    ensures Decode(lib, data) == DecodeNode(lib, data[1..])
  {
  }

  /** Whatever the bytes, a decoded node has between one and ten labels, nonzero and strictly
      ascending, its key is text, and its write sequence is zero. */
  lemma DecodedNodeIsSound<P>(lib: Library<P>, data: Data, op: WalOp<P>)
    requires Decode(lib, data) == Ok(op) && op.UpsertNode?
    ensures SoundNode(lib, op.node)
  {
    NodeTag(lib, data);
    ReadNodeIsSound(lib, data[1..]);
  }
}
