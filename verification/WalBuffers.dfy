/** The encoder over a reused buffer and the decoder over a moving cursor. */
module WalBuffers {
  import opened Bytes
  import opened WalFormat

  // ---- Encoding ----

  class EncodeBuffer {
    var data: Data

    constructor ()
      ensures data == []
    {
      data := [];
    }

    method Clear()
      modifies this
      ensures data == []
    {
      data := [];
    }

    /** Appends the next piece: what is written and what is still to come stay the same together. */
    method Put(d: Data, ghost left: Pieces)
      requires left.Piece? && left.bytes == d
      modifies this
      ensures data + Flat(left.rest) == old(data) + Flat(left)
    {
      data := data + d;
    }
  }

  method PutIds(buf: EncodeBuffer, ids: seq<U32>, ghost rest: Pieces)
    modifies buf
    ensures buf.data + Flat(rest) == old(buf.data + Flat(IdPieces(ids, rest)))
  {
    for k := 0 to |ids|
      invariant buf.data + Flat(IdPieces(ids[k..], rest)) == old(buf.data + Flat(IdPieces(ids, rest)))
    {
      assert ids[k..][1..] == ids[k + 1..];
      buf.Put(LE(ids[k], 4), IdPieces(ids[k..], rest));
    }
  }

  method PutEntries(buf: EncodeBuffer, entries: seq<(U32, U32)>, ghost rest: Pieces)
    modifies buf
    ensures buf.data + Flat(rest) == old(buf.data + Flat(EntryPieces(entries, rest)))
  {
    for k := 0 to |entries|
      invariant buf.data + Flat(EntryPieces(entries[k..], rest)) == old(buf.data + Flat(EntryPieces(entries, rest)))
    {
      assert entries[k..][1..] == entries[k + 1..];
      ghost var left := EntryPieces(entries[k..], rest);
      buf.Put(LE(entries[k].0, 4), left);
      buf.Put(LE(entries[k].1, 4), left.rest);
    }
  }

  method PutText(buf: EncodeBuffer, text: Data, ghost rest: Pieces) returns (ok: bool)
    modifies buf
    ensures ok <==> |text| <= MAX_TEXT
    ensures ok ==> buf.data + Flat(rest) == old(buf.data + Flat(TextPieces(text, rest)))
  {
    if |text| > MAX_TEXT {
      return false;
    }
    buf.Put(LE(|text|, 2), TextPieces(text, rest));
    buf.Put(text, Piece(text, rest));
    return true;
  }

  method PutBytes(buf: EncodeBuffer, bytes: Data, ghost rest: Pieces) returns (ok: bool)
    modifies buf
    ensures ok <==> |bytes| <= MAX_BYTES
    ensures ok ==> buf.data + Flat(rest) == old(buf.data + Flat(BytesPieces(bytes, rest)))
  {
    if |bytes| > MAX_BYTES {
      return false;
    }
    buf.Put(LE(|bytes|, 4), BytesPieces(bytes, rest));
    buf.Put(bytes, Piece(bytes, rest));
    return true;
  }

  method PutVectors<P>(buf: EncodeBuffer, n: Node<P>)
    modifies buf
    ensures buf.data == old(buf.data) + Flat(Piece(LE(VectorFlags(n), 1), DensePieces(n.dense, SparsePieces(n.sparse, End))))
  {
    ghost var left := Piece(LE(VectorFlags(n), 1), DensePieces(n.dense, SparsePieces(n.sparse, End)));
    var flags := 0;
    if n.dense.Some? {
      flags := flags + 1;
    }
    if n.sparse.Some? {
      flags := flags + 2;
    }
    buf.Put(LE(flags, 1), left);
    left := left.rest;
    if n.dense.Some? {
      buf.Put(LE(|n.dense.value|, 4), left);
      PutIds(buf, n.dense.value, SparsePieces(n.sparse, End));
    }
    left := SparsePieces(n.sparse, End);
    if n.sparse.Some? {
      buf.Put(LE(|n.sparse.value|, 4), left);
      PutEntries(buf, n.sparse.value, End);
    }
    assert buf.data + Flat(End) == buf.data;
  }

  method PutNode<P>(lib: Library<P>, n: Node<P>, buf: EncodeBuffer) returns (ok: bool)
    modifies buf
    ensures ok <==> |n.key| <= MAX_TEXT && PackProps(lib, n.props).Ok?
    ensures ok ==> buf.data == old(buf.data) + Flat(NodePieces(n, PackProps(lib, n.props).value))
  {
    var packed := lib.pack(n.props);
    ghost var props := if packed.Ok? then packed.value else [];
    ghost var p7 := Piece(LE(VectorFlags(n), 1), DensePieces(n.dense, SparsePieces(n.sparse, End)));
    ghost var p6 := BytesPieces(props, p7);
    ghost var p5 := Piece(LE(n.weight, 4), p6);
    ghost var p4 := Piece(LE(AsU64(n.updatedAt), 8), p5);
    ghost var p3 := Piece(LE(AsU64(n.createdAt), 8), p4);
    ghost var p2 := TextPieces(n.key, p3);
    ghost var p1 := Piece(LE(|n.labels|, 1), IdPieces(n.labels, p2));
    buf.Put(LE(n.id, 8), NodePieces(n, props));
    buf.Put(LE(|n.labels|, 1), p1);
    PutIds(buf, n.labels, p2);
    ok := PutText(buf, n.key, p3);
    if !ok { return false; }
    buf.Put(LE(AsU64(n.createdAt), 8), p3);
    buf.Put(LE(AsU64(n.updatedAt), 8), p4);
    buf.Put(LE(n.weight, 4), p5);
    if packed.Err? { return false; }
    ok := PutBytes(buf, packed.value, p7);
    if !ok { return false; }
    PutVectors(buf, n);
  }

  method PutEdge<P>(lib: Library<P>, e: Edge<P>, buf: EncodeBuffer) returns (ok: bool)
    modifies buf
    ensures ok <==> PackProps(lib, e.props).Ok?
    ensures ok ==> buf.data == old(buf.data) + Flat(EdgePieces(e, PackProps(lib, e.props).value))
  {
    var packed := lib.pack(e.props);
    ghost var props := if packed.Ok? then packed.value else [];
    ghost var p9 := Piece(LE(AsU64(e.validTo), 8), End);
    ghost var p8 := Piece(LE(AsU64(e.validFrom), 8), p9);
    ghost var p7 := BytesPieces(props, p8);
    ghost var p6 := Piece(LE(e.weight, 4), p7);
    ghost var p5 := Piece(LE(AsU64(e.updatedAt), 8), p6);
    ghost var p4 := Piece(LE(AsU64(e.createdAt), 8), p5);
    ghost var p3 := Piece(LE(e.labelId, 4), p4);
    ghost var p2 := Piece(LE(e.target, 8), p3);
    ghost var p1 := Piece(LE(e.source, 8), p2);
    buf.Put(LE(e.id, 8), EdgePieces(e, props));
    buf.Put(LE(e.source, 8), p1);
    buf.Put(LE(e.target, 8), p2);
    buf.Put(LE(e.labelId, 4), p3);
    buf.Put(LE(AsU64(e.createdAt), 8), p4);
    buf.Put(LE(AsU64(e.updatedAt), 8), p5);
    buf.Put(LE(e.weight, 4), p6);
    if packed.Err? { return false; }
    ok := PutBytes(buf, packed.value, p8);
    if !ok { return false; }
    buf.Put(LE(AsU64(e.validFrom), 8), p8);
    buf.Put(LE(AsU64(e.validTo), 8), p9);
    assert buf.data + Flat(End) == buf.data;
  }

  method PutPair(buf: EncodeBuffer, a: Data, b: Data)
    modifies buf
    ensures buf.data == old(buf.data) + Flat(Piece(a, Piece(b, End)))
  {
    buf.Put(a, Piece(a, Piece(b, End)));
    buf.Put(b, Piece(b, End));
    assert buf.data + Flat(End) == buf.data;
  }

  method PutName(buf: EncodeBuffer, name: Data, labelId: U32) returns (ok: bool)
    modifies buf
    ensures ok <==> |name| <= MAX_TEXT
    ensures ok ==> buf.data == old(buf.data) + Flat(TextPieces(name, Piece(LE(labelId, 4), End)))
  {
    ok := PutText(buf, name, Piece(LE(labelId, 4), End));
    if ok {
      buf.Put(LE(labelId, 4), Piece(LE(labelId, 4), End));
      assert buf.data + Flat(End) == buf.data;
    }
  }

  /** Fills the buffer with the operation's bytes, whatever it held before. */
  method EncodeInto<P>(lib: Library<P>, op: WalOp<P>, buf: EncodeBuffer) returns (ok: bool)
    modifies buf
    ensures ok <==> Encode(lib, op).Ok?
    ensures ok ==> buf.data == Encode(lib, op).value
  {
    buf.Clear();
    ok := true;
    buf.data := buf.data + [Tag(op)];
    match op
    case UpsertNode(n) => ok := PutNode(lib, n, buf);
    case UpsertEdge(e) => ok := PutEdge(lib, e, buf);
    case DeleteNode(id, at) => PutPair(buf, LE(id, 8), LE(AsU64(at), 8));
    case DeleteEdge(id, at) => PutPair(buf, LE(id, 8), LE(AsU64(at), 8));
    case EnsureNodeLabel(name, labelId) => ok := PutName(buf, name, labelId);
    case EnsureEdgeLabel(name, labelId) => ok := PutName(buf, name, labelId);
    case BeginAtomicBatch(first, count) => PutPair(buf, LE(first, 8), LE(count, 4));
    case CommitAtomicBatch(first, count) => PutPair(buf, LE(first, 8), LE(count, 4));
  }

  // ---- Decoding ----

  /** The reader did what the function says: the value and what is left, or a failure. */
  ghost predicate Took<T>(spec: Result<(T, Data)>, r: Result<T>, rest: Data) {
    match spec
    case Ok((value, left)) => r == Ok(value) && rest == left
    case Err => r == Err
  }

  class Cursor {
    const data: Data
    var position: nat

    constructor (data: Data)
      ensures Valid() && Rest() == data
    {
      this.data, position := data, 0;
    }

    ghost predicate Valid()
      reads this
    {
      position <= |data|
    }

    ghost function Rest(): Data
      requires Valid()
      reads this
    {
      data[position..]
    }

    method ReadBlock(n: nat) returns (r: Result<Data>)
      requires Valid()
      modifies this
      ensures Valid() && Took(TakeBlock(old(Rest()), n), r, Rest())
    {
      if position + n > |data| {
        return Err;
      }
      assert data[position..][..n] == data[position..position + n];
      assert data[position..][n..] == data[position + n..];
      r := Ok(data[position..position + n]);
      position := position + n;
    }

    method ReadInt(width: nat) returns (r: Result<nat>)
      requires Valid()
      modifies this
      ensures Valid() && Took(TakeInt(old(Rest()), width), r, Rest())
    {
      var bytes :- ReadBlock(width);
      return Ok(FromLE(bytes));
    }

    method ReadU32() returns (r: Result<U32>)
      requires Valid()
      modifies this
      ensures Valid() && Took(TakeU32(old(Rest())), r, Rest())
    {
      var bytes :- ReadBlock(4);
      FromLEBound(bytes);
      PowersOf256();
      return Ok(FromLE(bytes));
    }

    method ReadU64() returns (r: Result<U64>)
      requires Valid()
      modifies this
      ensures Valid() && Took(TakeU64(old(Rest())), r, Rest())
    {
      var bytes :- ReadBlock(8);
      FromLEBound(bytes);
      PowersOf256();
      return Ok(FromLE(bytes));
    }

    method ReadI64() returns (r: Result<I64>)
      requires Valid()
      modifies this
      ensures Valid() && Took(TakeI64(old(Rest())), r, Rest())
    {
      var w :- ReadU64();
      return Ok(AsI64(w));
    }

    method ReadText<P>(lib: Library<P>) returns (r: Result<Data>)
      requires Valid()
      modifies this
      ensures Valid() && Took(TakeText(lib, old(Rest())), r, Rest())
    {
      var n :- ReadInt(2);
      var text :- ReadBlock(n);
      return if lib.isText(text) then Ok(text) else Err;
    }

    method ReadProps<P>(lib: Library<P>) returns (r: Result<P>)
      requires Valid()
      modifies this
      ensures Valid() && Took(TakeProps(lib, old(Rest())), r, Rest())
    {
      var n :- ReadInt(4);
      if n > MAX_BYTES {
        return Err;
      }
      var bytes :- ReadBlock(n);
      return lib.unpack(bytes);
    }

    method ReadWords(n: nat) returns (r: Result<seq<U32>>)
      requires Valid()
      modifies this
      ensures Valid() && Took(TakeWords(old(Rest()), n, []), r, Rest())
    {
      var words: seq<U32> := [];
      for k := 0 to n
        invariant Valid() && TakeWords(Rest(), n - k, words) == TakeWords(old(Rest()), n, [])
      {
        var w :- ReadU32();
        words := words + [w];
      }
      return Ok(words);
    }

    method ReadEntries(n: nat) returns (r: Result<seq<(U32, U32)>>)
      requires Valid()
      modifies this
      ensures Valid() && Took(TakeEntries(old(Rest()), n, []), r, Rest())
    {
      var entries: seq<(U32, U32)> := [];
      for k := 0 to n
        invariant Valid() && TakeEntries(Rest(), n - k, entries) == TakeEntries(old(Rest()), n, [])
      {
        var dimension :- ReadU32();
        var weight :- ReadU32();
        entries := entries + [(dimension, weight)];
      }
      return Ok(entries);
    }

    method ReadIds(n: nat) returns (r: Result<seq<U32>>)
      requires Valid()
      modifies this
      ensures Valid() && Took(TakeIds(old(Rest()), n, []), r, Rest())
    {
      var ids: seq<U32> := [];
      for k := 0 to n
        invariant Valid() && |ids| == k && TakeIds(Rest(), n - k, ids) == TakeIds(old(Rest()), n, [])
      {
        var id :- ReadU32();
        if k > 0 && ids[k - 1] >= id {
          return Err;
        }
        ids := ids + [id];
      }
      return Ok(ids);
    }

    method ReadLabels() returns (r: Result<seq<U32>>)
      requires Valid()
      modifies this
      ensures Valid() && Took(TakeLabels(old(Rest())), r, Rest())
    {
      var count :- ReadInt(1);
      if count == 0 || count > MAX_LABELS {
        return Err;
      }
      var ids :- ReadIds(count);
      return if 0 in ids then Err else Ok(ids);
    }

    method ReadDense(present: bool) returns (r: Result<Option<seq<U32>>>)
      requires Valid()
      modifies this
      ensures Valid() && Took(TakeDense(old(Rest()), present), r, Rest())
    {
      if !present {
        return Ok(None);
      }
      var n :- ReadU32();
      var values :- ReadWords(n);
      return Ok(Some(values));
    }

    method ReadSparse(present: bool) returns (r: Result<Option<seq<(U32, U32)>>>)
      requires Valid()
      modifies this
      ensures Valid() && Took(TakeSparse(old(Rest()), present), r, Rest())
    {
      if !present {
        return Ok(None);
      }
      var n :- ReadU32();
      var entries :- ReadEntries(n);
      return Ok(Some(entries));
    }

    method ReadVectors() returns (r: Result<Vectors>)
      requires Valid()
      modifies this
      ensures Valid() && r == TakeVectors(old(Rest()))
    {
      if position == |data| {
        return Ok(Vectors(None, None));
      }
      var flags :- ReadInt(1);
      if flags > 3 {
        return Err;
      }
      var dense :- ReadDense(flags % 2 == 1);
      var sparse :- ReadSparse(flags / 2 == 1);
      return if position != |data| then Err else Ok(Vectors(dense, sparse));
    }

    method ReadNode<P>(lib: Library<P>) returns (r: Result<WalOp<P>>)
      requires Valid()
      modifies this
      ensures r == DecodeNode(lib, old(Rest()))
    {
      var id :- ReadU64();
      var labels :- ReadLabels();
      var key :- ReadText(lib);
      var createdAt :- ReadI64();
      var updatedAt :- ReadI64();
      var weight :- ReadU32();
      var props :- ReadProps(lib);
      var v :- ReadVectors();
      return Ok(UpsertNode(Node(id, labels, key, props, createdAt, updatedAt, weight, v.dense, v.sparse, 0)));
    }

    method ReadEdge<P>(lib: Library<P>) returns (r: Result<WalOp<P>>)
      requires Valid()
      modifies this
      ensures r == DecodeEdge(lib, old(Rest()))
    {
      var id :- ReadU64();
      var source :- ReadU64();
      var target :- ReadU64();
      var labelId :- ReadU32();
      var createdAt :- ReadI64();
      var updatedAt :- ReadI64();
      var weight :- ReadU32();
      var props :- ReadProps(lib);
      var validFrom :- ReadI64();
      var validTo :- ReadI64();
      if position != |data| {
        return Err;
      }
      return Ok(UpsertEdge(Edge(id, source, target, labelId, props, createdAt, updatedAt, weight, validFrom, validTo, 0)));
    }

    method ReadDelete<P>(node: bool) returns (r: Result<WalOp<P>>)
      requires Valid()
      modifies this
      ensures r == DecodeDelete(old(Rest()), node)
    {
      var id :- ReadU64();
      var at :- ReadI64();
      if position != |data| {
        return Err;
      }
      return Ok(if node then DeleteNode(id, at) else DeleteEdge(id, at));
    }

    method ReadName<P>(lib: Library<P>, node: bool) returns (r: Result<WalOp<P>>)
      requires Valid()
      modifies this
      ensures r == DecodeLabel(lib, old(Rest()), node)
    {
      var name :- ReadText(lib);
      var labelId :- ReadU32();
      if position != |data| {
        return Err;
      }
      return Ok(if node then EnsureNodeLabel(name, labelId) else EnsureEdgeLabel(name, labelId));
    }

    method ReadBatch<P>(begin: bool) returns (r: Result<WalOp<P>>)
      requires Valid()
      modifies this
      ensures r == DecodeBatch(old(Rest()), begin)
    {
      var first :- ReadU64();
      var count :- ReadU32();
      if position != |data| {
        return Err;
      }
      return Ok(if begin then BeginAtomicBatch(first, count) else CommitAtomicBatch(first, count));
    }
  }

  method DecodeOp<P>(lib: Library<P>, data: Data) returns (r: Result<WalOp<P>>)
    ensures r == Decode(lib, data)
  {
    var cursor := new Cursor(data);
    var tag :- cursor.ReadInt(1);
    assert data[..1] == [data[0]] && FromLE([data[0]]) == data[0];
    assert cursor.Rest() == data[1..];
    match tag
    case 1 => r := cursor.ReadNode(lib);
    case 2 => r := cursor.ReadEdge(lib);
    case 3 => r := cursor.ReadDelete(true);
    case 4 => r := cursor.ReadDelete(false);
    case 5 => r := cursor.ReadName(lib, true);
    case 6 => r := cursor.ReadName(lib, false);
    case 7 => r := cursor.ReadBatch(true);
    case 8 => r := cursor.ReadBatch(false);
    case _ => r := Err;
  }
}
