/** The degree sidecar file: its bytes, its two validators and the two-level lookup. */
module DegreeSidecar {
  import opened Bytes

  const MAGIC: Data := [0x4F, 0x47, 0x44, 0x44, 0x4C, 0x54, 0x30, 0x31]
  const VERSION := 1
  const BLOCK := 256
  const HEADER := 32
  const INDEX_SIZE := 16
  const ENTRY_SIZE := 64
  const CRC_SIZE := 4

  type U32 = x: nat | x < 0x1_0000_0000
  type U64 = x: nat | x < 0x1_0000_0000_0000_0000

  /** A checksum of bytes, whichever it is. */
  type Checksum = Data -> U32

  /** Seven 64-bit words: counts in two's complement and weight sums as binary64 patterns. */
  datatype Delta = Delta(outDegree: U64, inDegree: U64, outWeight: U64, inWeight: U64, loops: U64, loopWeight: U64,
                         temporal: U64)

  const ZERO := Delta(0, 0, 0, 0, 0, 0, 0)

  /** Both floating zeros are zero. */
  predicate ZeroWeight(w: U64) { w == 0 || w == 0x8000_0000_0000_0000 }

  predicate IsZero(d: Delta) {
    && d.outDegree == 0 && d.inDegree == 0 && ZeroWeight(d.outWeight) && ZeroWeight(d.inWeight)
    && d.loops == 0 && ZeroWeight(d.loopWeight) && d.temporal == 0
  }

  datatype Entry = Entry(node: U64, delta: Delta)

  // ---- Writing ----

  function EntryBytes(e: Entry): (s: Data)
    ensures |s| == ENTRY_SIZE
  {
    LE(e.node, 8) + (LE(e.delta.outDegree, 8) + (LE(e.delta.inDegree, 8) + (LE(e.delta.outWeight, 8) +
    (LE(e.delta.inWeight, 8) + (LE(e.delta.loops, 8) + (LE(e.delta.loopWeight, 8) + LE(e.delta.temporal, 8)))))))
  }

  function EntriesBytes(entries: seq<Entry>): (s: Data)
    ensures |s| == |entries| * ENTRY_SIZE
  {
    if entries == [] then [] else EntryBytes(entries[0]) + EntriesBytes(entries[1..])
  }

  function BlockCount(n: nat): nat { (n + BLOCK - 1) / BLOCK }

  function IndexRow(entries: seq<Entry>, block: nat): (s: Data)
    requires block < BlockCount(|entries|)
    ensures |s| == INDEX_SIZE
  {
    LE(entries[block * BLOCK].node, 8) + LE(block * BLOCK, 8)
  }

  /** Rows of one size, one after another. */
  function Joined(rows: seq<Data>): (s: Data)
    requires forall i | 0 <= i < |rows| :: |rows[i]| == INDEX_SIZE
    ensures |s| == |rows| * INDEX_SIZE
  {
    if rows == [] then [] else rows[0] + Joined(rows[1..])
  }

  function IndexBytes(entries: seq<Entry>): (s: Data)
    ensures |s| == BlockCount(|entries|) * INDEX_SIZE
  {
    Joined(seq(BlockCount(|entries|), block requires 0 <= block < BlockCount(|entries|) => IndexRow(entries, block)))
  }

  function HeaderBytes(n: nat): (s: Data)
    ensures |s| == HEADER
  {
    MAGIC + (LE(VERSION, 4) + (LE(BLOCK, 4) + (LE(n, 8) + LE(BlockCount(n), 8))))
  }

  function Body(entries: seq<Entry>): (s: Data)
    ensures |s| == HEADER + BlockCount(|entries|) * INDEX_SIZE + |entries| * ENTRY_SIZE
  {
    HeaderBytes(|entries|) + (IndexBytes(entries) + EntriesBytes(entries))
  }

  function Encode(crc: Checksum, entries: seq<Entry>): Data {
    Body(entries) + LE(crc(Body(entries)), 4)
  }

  method AppendIndex(bytes0: Data, entries: seq<Entry>) returns (bytes: Data)
    ensures bytes == bytes0 + IndexBytes(entries)
  {
    bytes := bytes0;
    ghost var rows := seq(BlockCount(|entries|), b requires 0 <= b < BlockCount(|entries|) => IndexRow(entries, b));
    for block := 0 to BlockCount(|entries|)
      invariant bytes + Joined(rows[block..]) == bytes0 + Joined(rows)
    {
      assert rows[block..][1..] == rows[block + 1..];
      Regroup(bytes, rows[block], Joined(rows[block + 1..]));
      bytes := bytes + (LE(entries[block * BLOCK].node, 8) + LE(block * BLOCK, 8));
    }
    assert bytes + Joined([]) == bytes;
  }

  method AppendEntries(bytes0: Data, entries: seq<Entry>) returns (bytes: Data)
    ensures bytes == bytes0 + EntriesBytes(entries)
  {
    bytes := bytes0;
    for i := 0 to |entries|
      invariant bytes + EntriesBytes(entries[i..]) == bytes0 + EntriesBytes(entries)
    {
      assert entries[i..][1..] == entries[i + 1..];
      Regroup(bytes, EntryBytes(entries[i]), EntriesBytes(entries[i + 1..]));
      bytes := bytes + EntryBytes(entries[i]);
    }
    assert bytes + EntriesBytes([]) == bytes;
  }

  method EncodeSorted(crc: Checksum, entries: seq<Entry>) returns (bytes: Data)
    ensures bytes == Encode(crc, entries)
  {
    bytes := AppendIndex(HeaderBytes(|entries|), entries);
    bytes := AppendEntries(bytes, entries);
    Regroup(HeaderBytes(|entries|), IndexBytes(entries), EntriesBytes(entries));
    bytes := bytes + LE(crc(bytes), 4);
  }

  // ---- Reading ----

  /** A word of the data; the caller knows it is there. */
  function WordAt(data: Data, offset: nat): (w: U64)
    requires offset + 8 <= |data|
  {
    FromLEBound(data[offset..offset + 8]);
    PowersOf256();
    FromLE(data[offset..offset + 8])
  }

  datatype Shape = Shape(entries: nat, blocks: nat)

  function ReadShape(data: Data): Result<Shape> {
    if |data| < HEADER + CRC_SIZE || data[0..8] != MAGIC then Err
    else if ReadAt(data, 8, 4) != Some(VERSION) || ReadAt(data, 12, 4) != Some(BLOCK) then Err
    else
      var n, blocks := WordAt(data, 16), WordAt(data, 24);
      if blocks != BlockCount(n) || |data| != HEADER + blocks * INDEX_SIZE + n * ENTRY_SIZE + CRC_SIZE then Err
      else Ok(Shape(n, blocks))
  }

  predicate HasShape(data: Data, shape: Shape) {
    && shape.blocks == BlockCount(shape.entries)
    && |data| == HEADER + shape.blocks * INDEX_SIZE + shape.entries * ENTRY_SIZE + CRC_SIZE
  }

  function EntryOffset(shape: Shape, i: nat): nat { HEADER + shape.blocks * INDEX_SIZE + i * ENTRY_SIZE }

  function NodeAt(data: Data, shape: Shape, i: nat): U64
    requires HasShape(data, shape) && i < shape.entries
  {
    WordAt(data, EntryOffset(shape, i))
  }

  function DeltaAt(data: Data, shape: Shape, i: nat): Delta
    requires HasShape(data, shape) && i < shape.entries
  {
    var at := EntryOffset(shape, i);
    Delta(WordAt(data, at + 8), WordAt(data, at + 16), WordAt(data, at + 24), WordAt(data, at + 32),
          WordAt(data, at + 40), WordAt(data, at + 48), WordAt(data, at + 56))
  }

  function BlockFirst(data: Data, shape: Shape, block: nat): U64
    requires HasShape(data, shape) && block < shape.blocks
  {
    WordAt(data, HEADER + block * INDEX_SIZE)
  }

  function BlockStart(data: Data, shape: Shape, block: nat): U64
    requires HasShape(data, shape) && block < shape.blocks
  {
    WordAt(data, HEADER + block * INDEX_SIZE + 8)
  }

  function EntriesOf(data: Data, shape: Shape): (entries: seq<Entry>)
    requires HasShape(data, shape)
    ensures |entries| == shape.entries
  {
    seq(shape.entries, i requires 0 <= i < shape.entries => Entry(NodeAt(data, shape, i), DeltaAt(data, shape, i)))
  }

  // ---- The full check ----

  predicate Ascends(entries: seq<Entry>) {
    forall i, j | 0 <= i < j < |entries| :: entries[i].node < entries[j].node
  }

  /** Strictly ascending nodes and no zero deltas: what a sidecar is written from. */
  predicate Canonical(entries: seq<Entry>) {
    Ascends(entries) && forall i | 0 <= i < |entries| :: !IsZero(entries[i].delta)
  }

  predicate EntriesOk(data: Data, shape: Shape, i: nat, previous: Option<nat>)
    requires HasShape(data, shape)
    decreases shape.entries - i
  {
    i >= shape.entries ||
    (&& (previous.Some? ==> previous.value < NodeAt(data, shape, i))
     && !IsZero(DeltaAt(data, shape, i))
     && EntriesOk(data, shape, i + 1, Some(NodeAt(data, shape, i))))
  }

  predicate BlockOk(data: Data, shape: Shape, block: nat)
    requires HasShape(data, shape) && block < shape.blocks
  {
    && BlockStart(data, shape, block) == block * BLOCK
    && block * BLOCK < shape.entries
    && BlockFirst(data, shape, block) == NodeAt(data, shape, block * BLOCK)
  }

  predicate IndexOk(data: Data, shape: Shape)
    requires HasShape(data, shape)
  {
    forall block | 0 <= block < shape.blocks :: BlockOk(data, shape, block)
  }

  predicate ChecksumOk(crc: Checksum, data: Data)
    requires |data| >= CRC_SIZE
  {
    ReadAt(data, |data| - CRC_SIZE, 4) == Some(crc(data[..|data| - CRC_SIZE]))
  }

  predicate Accepts(crc: Checksum, data: Data) {
    match ReadShape(data)
    case Err => false
    case Ok(shape) => ChecksumOk(crc, data) && EntriesOk(data, shape, 0, None) && IndexOk(data, shape)
  }

  method CheckEntries(data: Data, shape: Shape) returns (ok: bool)
    requires HasShape(data, shape)
    ensures ok <==> EntriesOk(data, shape, 0, None)
  {
    var previous: Option<nat> := None;
    for i := 0 to shape.entries
      invariant EntriesOk(data, shape, i, previous) == EntriesOk(data, shape, 0, None)
    {
      var node := NodeAt(data, shape, i);
      if (previous.Some? && previous.value >= node) || IsZero(DeltaAt(data, shape, i)) {
        return false;
      }
      previous := Some(node);
    }
    return true;
  }

  method CheckIndex(data: Data, shape: Shape) returns (ok: bool)
    requires HasShape(data, shape)
    ensures ok <==> IndexOk(data, shape)
  {
    for block := 0 to shape.blocks
      invariant forall b | 0 <= b < block :: BlockOk(data, shape, b)
    {
      if !BlockOk(data, shape, block) {
        return false;
      }
    }
    return true;
  }

  method Validate(crc: Checksum, data: Data) returns (ok: bool)
    ensures ok <==> Accepts(crc, data)
  {
    var read := ReadShape(data);
    if read.Err? || !ChecksumOk(crc, data) {
      return false;
    }
    ok := CheckEntries(data, read.value);
    if ok {
      ok := CheckIndex(data, read.value);
    }
  }

  lemma {:induction false} EntriesOkExactly(data: Data, shape: Shape, i: nat, previous: Option<nat>)
    requires HasShape(data, shape) && i <= shape.entries
    ensures EntriesOk(data, shape, i, previous) <==>
            && Canonical(EntriesOf(data, shape)[i..])
            && (previous.Some? && i < shape.entries ==> previous.value < NodeAt(data, shape, i))
    decreases shape.entries - i
  {
    if i < shape.entries {
      var all := EntriesOf(data, shape);
      EntriesOkExactly(data, shape, i + 1, Some(NodeAt(data, shape, i)));
      assert all[i] == Entry(NodeAt(data, shape, i), DeltaAt(data, shape, i));
      CanonicalFrom(all, i);
    }
  }

  lemma CanonicalFrom(all: seq<Entry>, i: nat)
    requires i < |all|
    ensures Canonical(all[i..]) <==>
            Canonical(all[i + 1..]) && !IsZero(all[i].delta) && (i + 1 < |all| ==> all[i].node < all[i + 1].node)
  {
    CanonicalCons(all[i], all[i + 1..]);
    assert all[i..] == [all[i]] + all[i + 1..];
  }

  lemma CanonicalCons(e: Entry, rest: seq<Entry>)
    ensures Canonical([e] + rest) <==> Canonical(rest) && !IsZero(e.delta) && (rest != [] ==> e.node < rest[0].node)
  {
    var all := [e] + rest;
    if Canonical(all) {
      assert all[0] == e && forall i | 0 <= i < |rest| :: all[i + 1] == rest[i];
    } else if Canonical(rest) && !IsZero(e.delta) && (rest != [] ==> e.node < rest[0].node) {
      assert forall i, j | 0 <= i < j < |all| :: all[i].node < all[j].node;
    }
  }

  // ---- Fields and bytes determine each other ----

  /** A held word is the word read there, and the other way around. */
  lemma WordHeld(data: Data, offset: nat, w: U64)
    requires offset + 8 <= |data|
    ensures Holds(data, offset, LE(w, 8)) <==> WordAt(data, offset) == w
  {
    PowersOf256();
    HoldsSlice(data, offset, LE(w, 8));
    LERoundTrip(w, 8);
    FromLERoundTrip(data[offset..offset + 8]);
  }

  lemma HoldsPair(data: Data, offset: nat, a: Data, b: Data)
    ensures Holds(data, offset, a + b) <==> Holds(data, offset, a) && Holds(data, offset + |a|, b)
  {
    if Holds(data, offset, a + b) {
      HoldsParts(data, offset, a, b);
    }
    if Holds(data, offset, a) && Holds(data, offset + |a|, b) {
      HoldsJoined(data, offset, a, b);
    }
  }

  lemma WordThenHeld(data: Data, offset: nat, w: U64, rest: Data)
    requires offset + 8 <= |data|
    ensures Holds(data, offset, LE(w, 8) + rest) <==> WordAt(data, offset) == w && Holds(data, offset + 8, rest)
  {
    HoldsPair(data, offset, LE(w, 8), rest);
    WordHeld(data, offset, w);
  }

  function EntryAtOffset(data: Data, at: nat): Entry
    requires at + ENTRY_SIZE <= |data|
  {
    Entry(WordAt(data, at),
          Delta(WordAt(data, at + 8), WordAt(data, at + 16), WordAt(data, at + 24), WordAt(data, at + 32),
                WordAt(data, at + 40), WordAt(data, at + 48), WordAt(data, at + 56)))
  }

  lemma EntryHeld(data: Data, at: nat, e: Entry)
    requires at + ENTRY_SIZE <= |data|
    ensures Holds(data, at, EntryBytes(e)) <==> EntryAtOffset(data, at) == e
  {
    var d := e.delta;
    var r6 := LE(d.loopWeight, 8) + LE(d.temporal, 8);
    var r5 := LE(d.loops, 8) + r6;
    var r4 := LE(d.inWeight, 8) + r5;
    var r3 := LE(d.outWeight, 8) + r4;
    var r2 := LE(d.inDegree, 8) + r3;
    var r1 := LE(d.outDegree, 8) + r2;
    WordThenHeld(data, at, e.node, r1);
    WordThenHeld(data, at + 8, d.outDegree, r2);
    WordThenHeld(data, at + 16, d.inDegree, r3);
    WordThenHeld(data, at + 24, d.outWeight, r4);
    WordThenHeld(data, at + 32, d.inWeight, r5);
    WordThenHeld(data, at + 40, d.loops, r6);
    WordThenHeld(data, at + 48, d.loopWeight, LE(d.temporal, 8));
    WordHeld(data, at + 56, d.temporal);
  }

  lemma FirstEntryHeld(data: Data, at: nat, entries: seq<Entry>, i: nat)
    requires i < |entries| && at + ENTRY_SIZE <= |data|
    ensures Holds(data, at, EntriesBytes(entries[i..])) <==>
            EntryAtOffset(data, at) == entries[i] && Holds(data, at + ENTRY_SIZE, EntriesBytes(entries[i + 1..]))
  {
    assert entries[i..][1..] == entries[i + 1..];
    HoldsPair(data, at, EntryBytes(entries[i]), EntriesBytes(entries[i + 1..]));
    EntryHeld(data, at, entries[i]);
  }

  /** From this position on the entries are those read from the data. */
  ghost predicate ReadFrom(data: Data, shape: Shape, entries: seq<Entry>, i: nat)
    requires HasShape(data, shape) && |entries| == shape.entries
  {
    forall k: nat | i <= k < shape.entries :: entries[k] == EntryAtOffset(data, EntryOffset(shape, k))
  }

  lemma {:induction false} EntriesHeld(data: Data, shape: Shape, entries: seq<Entry>, i: nat)
    requires HasShape(data, shape) && |entries| == shape.entries && i <= shape.entries
    ensures Holds(data, EntryOffset(shape, i), EntriesBytes(entries[i..])) <==> ReadFrom(data, shape, entries, i)
    decreases shape.entries - i
  {
    if i < shape.entries {
      FirstEntryHeld(data, EntryOffset(shape, i), entries, i);
      EntriesHeld(data, shape, entries, i + 1);
      assert ReadFrom(data, shape, entries, i) <==>
             entries[i] == EntryAtOffset(data, EntryOffset(shape, i)) && ReadFrom(data, shape, entries, i + 1);
    }
  }

  lemma AllEntriesHeld(data: Data, shape: Shape, entries: seq<Entry>)
    requires HasShape(data, shape) && |entries| == shape.entries
    ensures Holds(data, EntryOffset(shape, 0), EntriesBytes(entries)) <==> entries == EntriesOf(data, shape)
  {
    assert entries[0..] == entries;
    EntriesHeld(data, shape, entries, 0);
    AllRead(data, shape, entries);
  }

  lemma AllRead(data: Data, shape: Shape, entries: seq<Entry>)
    requires HasShape(data, shape) && |entries| == shape.entries
    ensures ReadFrom(data, shape, entries, 0) <==> entries == EntriesOf(data, shape)
  {
    var all := EntriesOf(data, shape);
    forall k: nat | k < shape.entries
      ensures all[k] == EntryAtOffset(data, EntryOffset(shape, k))
    {
    }
  }

  lemma BlockInside(n: nat, block: nat)
    requires block < BlockCount(n)
    ensures block * BLOCK < n
  {
  }

  lemma IndexRowHeld(data: Data, shape: Shape, block: nat)
    requires HasShape(data, shape) && block < shape.blocks && shape.entries < 0x1_0000_0000_0000_0000
    ensures Holds(data, HEADER + block * INDEX_SIZE, IndexRow(EntriesOf(data, shape), block)) <==> BlockOk(data, shape, block)
  {
    BlockInside(shape.entries, block);
    assert EntriesOf(data, shape)[block * BLOCK].node == NodeAt(data, shape, block * BLOCK);
    TwoWordsHeld(data, HEADER + block * INDEX_SIZE, NodeAt(data, shape, block * BLOCK), block * BLOCK);
  }

  lemma TwoWordsHeld(data: Data, at: nat, v: U64, w: U64)
    requires at + 16 <= |data|
    ensures Holds(data, at, LE(v, 8) + LE(w, 8)) <==> WordAt(data, at) == v && WordAt(data, at + 8) == w
  {
    WordThenHeld(data, at, v, LE(w, 8));
    WordHeld(data, at + 8, w);
  }

  ghost predicate RowHeld(data: Data, at: nat, i: nat, row: Data) { Holds(data, at + i * INDEX_SIZE, row) }

  lemma {:induction false} JoinedHeld(data: Data, at: nat, rows: seq<Data>)
    requires at <= |data| && forall i | 0 <= i < |rows| :: |rows[i]| == INDEX_SIZE
    ensures Holds(data, at, Joined(rows)) <==> forall i | 0 <= i < |rows| :: RowHeld(data, at, i, rows[i])
    decreases |rows|
  {
    if rows != [] {
      var rest := rows[1..];
      HoldsPair(data, at, rows[0], Joined(rest));
      if at + INDEX_SIZE <= |data| {
        JoinedHeld(data, at + INDEX_SIZE, rest);
        FirstAndRestHeld(data, at, rows);
      } else {
        assert !RowHeld(data, at, 0, rows[0]);
      }
    }
  }

  lemma FirstAndRestHeld(data: Data, at: nat, rows: seq<Data>)
    requires rows != []
    ensures (forall i | 0 <= i < |rows| :: RowHeld(data, at, i, rows[i])) <==>
            Holds(data, at, rows[0]) && forall i | 0 <= i < |rows[1..]| :: RowHeld(data, at + INDEX_SIZE, i, rows[1..][i])
  {
    if forall i | 0 <= i < |rows| :: RowHeld(data, at, i, rows[i]) {
      assert RowHeld(data, at, 0, rows[0]);
      forall i | 0 <= i < |rows[1..]|
        ensures RowHeld(data, at + INDEX_SIZE, i, rows[1..][i])
      {
        assert RowHeld(data, at, i + 1, rows[i + 1]);
      }
    } else if Holds(data, at, rows[0]) {
      var i :| 0 <= i < |rows| && !RowHeld(data, at, i, rows[i]);
      assert !RowHeld(data, at + INDEX_SIZE, i - 1, rows[1..][i - 1]);
    }
  }

  lemma IndexHeld(data: Data, shape: Shape)
    requires HasShape(data, shape) && shape.entries < 0x1_0000_0000_0000_0000
    ensures Holds(data, HEADER, IndexBytes(EntriesOf(data, shape))) <==> IndexOk(data, shape)
  {
    var entries := EntriesOf(data, shape);
    var rows := seq(shape.blocks, block requires 0 <= block < shape.blocks => IndexRow(entries, block));
    JoinedHeld(data, HEADER, rows);
    forall block | 0 <= block < shape.blocks
      ensures RowHeld(data, HEADER, block, rows[block]) <==> BlockOk(data, shape, block)
    {
      IndexRowHeld(data, shape, block);
    }
  }

  lemma HeaderHeld(data: Data, n: nat)
    requires |data| >= HEADER + CRC_SIZE && n < Pow256(8) && BlockCount(n) < Pow256(8)
    ensures Holds(data, 0, HeaderBytes(n)) <==>
            && data[0..8] == MAGIC && ReadAt(data, 8, 4) == Some(VERSION) && ReadAt(data, 12, 4) == Some(BLOCK)
            && WordAt(data, 16) == n && WordAt(data, 24) == BlockCount(n)
  {
    PowersOf256();
    var r3 := LE(n, 8) + LE(BlockCount(n), 8);
    var r2 := LE(BLOCK, 4) + r3;
    HoldsPair(data, 0, MAGIC, LE(VERSION, 4) + r2);
    HoldsPair(data, 8, LE(VERSION, 4), r2);
    HoldsPair(data, 12, LE(BLOCK, 4), r3);
    HalfWordHeld(data, 8, VERSION);
    HalfWordHeld(data, 12, BLOCK);
    WordThenHeld(data, 16, n, LE(BlockCount(n), 8));
    WordHeld(data, 24, BlockCount(n));
  }

  lemma HalfWordHeld(data: Data, offset: nat, w: U32)
    requires offset + 4 <= |data|
    ensures Holds(data, offset, LE(w, 4)) <==> ReadAt(data, offset, 4) == Some(w)
  {
    PowersOf256();
    HoldsSlice(data, offset, LE(w, 4));
    LERoundTrip(w, 4);
    FromLERoundTrip(data[offset..offset + 4]);
  }

  // ---- The validator accepts exactly what is written ----

  /** Lists the counts in the header can hold. */
  predicate CountFits(entries: seq<Entry>) { |entries| < 0x1_0000_0000_0000_0000 }

  lemma BodyHeld(data: Data, shape: Shape)
    requires HasShape(data, shape) && shape.entries < 0x1_0000_0000_0000_0000
    ensures Holds(data, 0, Body(EntriesOf(data, shape))) <==> ReadShape(data) == Ok(shape) && IndexOk(data, shape)
  {
    var entries := EntriesOf(data, shape);
    HoldsPair(data, 0, HeaderBytes(shape.entries), IndexBytes(entries) + EntriesBytes(entries));
    HoldsPair(data, HEADER, IndexBytes(entries), EntriesBytes(entries));
    ShapeHeld(data, shape);
    IndexHeld(data, shape);
    AllEntriesHeld(data, shape, entries);
  }

  lemma ShapeHeld(data: Data, shape: Shape)
    requires HasShape(data, shape) && shape.entries < 0x1_0000_0000_0000_0000
    ensures Holds(data, 0, HeaderBytes(shape.entries)) <==> ReadShape(data) == Ok(shape)
  {
    PowersOf256();
    HeaderHeld(data, shape.entries);
  }

  /** Data that splits into a body and its checksum. */
  lemma BodyAndChecksum(crc: Checksum, data: Data, body: Data)
    requires |data| == |body| + CRC_SIZE
    ensures data == body + LE(crc(body), 4) <==>
            Holds(data, 0, body) && ReadAt(data, |body|, 4) == Some(crc(data[..|body|]))
  {
    var front, tail := data[..|body|], LE(crc(data[..|body|]), 4);
    HalfWordHeld(data, |body|, crc(front));
    HoldsSlice(data, 0, body);
    HoldsSlice(data, |body|, tail);
    assert data == front + data[|body|..|body| + 4] && data[0..|body|] == front;
    if data == body + LE(crc(body), 4) {
      assert front == body && data[|body|..|body| + 4] == LE(crc(body), 4);
    }
  }

  /** The data is the encoding of its own entries exactly when header, checksum and index are right. */
  lemma EncodingOfEntries(crc: Checksum, data: Data, shape: Shape)
    requires HasShape(data, shape) && shape.entries < 0x1_0000_0000_0000_0000
    ensures data == Encode(crc, EntriesOf(data, shape)) <==>
            ReadShape(data) == Ok(shape) && IndexOk(data, shape) && ChecksumOk(crc, data)
  {
    BodyHeld(data, shape);
    BodyAndChecksum(crc, data, Body(EntriesOf(data, shape)));
  }

  lemma EncodedEntriesRead(crc: Checksum, entries: seq<Entry>)
    requires CountFits(entries)
    ensures var data, shape := Encode(crc, entries), Shape(|entries|, BlockCount(|entries|));
            HasShape(data, shape) && EntriesOf(data, shape) == entries
  {
    var data, shape := Encode(crc, entries), Shape(|entries|, BlockCount(|entries|));
    assert Holds(data, 0, Body(entries));
    HoldsPair(data, 0, HeaderBytes(|entries|), IndexBytes(entries) + EntriesBytes(entries));
    HoldsPair(data, HEADER, IndexBytes(entries), EntriesBytes(entries));
    AllEntriesHeld(data, shape, entries);
  }

  /** The full check accepts exactly the encodings of strictly ascending lists without zero deltas. */
  lemma AcceptsExactlyEncodings(crc: Checksum, data: Data)
    ensures Accepts(crc, data) <==> exists entries :: CountFits(entries) && Canonical(entries) && data == Encode(crc, entries)
  {
    if entries :| CountFits(entries) && Canonical(entries) && data == Encode(crc, entries) {
      EncodingIsAccepted(crc, entries);
    }
    if Accepts(crc, data) {
      AcceptedIsEncoding(crc, data);
    }
  }

  lemma EncodingIsAccepted(crc: Checksum, entries: seq<Entry>)
    requires CountFits(entries) && Canonical(entries)
    ensures Accepts(crc, Encode(crc, entries))
    ensures ReadShape(Encode(crc, entries)) == Ok(Shape(|entries|, BlockCount(|entries|)))
  {
    var data, shape := Encode(crc, entries), Shape(|entries|, BlockCount(|entries|));
    EncodedEntriesRead(crc, entries);
    EncodingOfEntries(crc, data, shape);
    CanonicalEntriesOk(data, shape);
  }

  lemma CanonicalEntriesOk(data: Data, shape: Shape)
    requires HasShape(data, shape)
    ensures EntriesOk(data, shape, 0, None) <==> Canonical(EntriesOf(data, shape))
  {
    assert EntriesOf(data, shape)[0..] == EntriesOf(data, shape);
    EntriesOkExactly(data, shape, 0, None);
  }

  lemma AcceptedIsEncoding(crc: Checksum, data: Data)
    requires Accepts(crc, data)
    ensures var entries := EntriesOf(data, ReadShape(data).value);
            CountFits(entries) && Canonical(entries) && data == Encode(crc, entries)
  {
    var shape := ReadShape(data).value;
    EncodingOfEntries(crc, data, shape);
    CanonicalEntriesOk(data, shape);
  }
}
