/** Looking a node up in a degree sidecar: first the block, then the entry. */
module DegreeLookup {
  import opened Bytes
  import opened DegreeSidecar

  /** The delta of a node in a list of entries, zero when it is not there. */
  function Find(entries: seq<Entry>, node: nat): Delta {
    if entries == [] then ZERO else if entries[0].node == node then entries[0].delta else Find(entries[1..], node)
  }

  lemma {:induction false} FindAt(entries: seq<Entry>, i: nat)
    requires i < |entries| && Ascends(entries)
    ensures Find(entries, entries[i].node) == entries[i].delta
    decreases |entries|
  {
    if i > 0 {
      assert entries[0].node < entries[i].node;
      FindAt(entries[1..], i - 1);
    }
  }

  lemma {:induction false} FindMissing(entries: seq<Entry>, node: nat)
    requires forall i | 0 <= i < |entries| :: entries[i].node != node
    ensures Find(entries, node) == ZERO
    decreases |entries|
  {
    if entries != [] {
      assert entries[0].node != node;
      assert forall i | 0 <= i < |entries[1..]| :: entries[1..][i] == entries[i + 1];
      FindMissing(entries[1..], node);
    }
  }

  /** Sorted entries under a right index: what the full check establishes. */
  ghost predicate InOrder(data: Data, shape: Shape)
    requires HasShape(data, shape)
  {
    Ascends(EntriesOf(data, shape)) && IndexOk(data, shape)
  }

  /** A block that starts at or before the node, the next one after it. */
  method FindBlock(data: Data, shape: Shape, node: nat) returns (lo: nat)
    requires HasShape(data, shape)
    ensures lo <= shape.blocks
    ensures lo > 0 ==> BlockFirst(data, shape, lo - 1) <= node
    ensures lo < shape.blocks ==> node < BlockFirst(data, shape, lo)
  {
    lo := 0;
    var hi := shape.blocks;
    while lo < hi
      invariant 0 <= lo <= hi <= shape.blocks
      invariant lo > 0 ==> BlockFirst(data, shape, lo - 1) <= node
      invariant hi < shape.blocks ==> node < BlockFirst(data, shape, hi)
    {
      var mid := lo + (hi - lo) / 2;
      if BlockFirst(data, shape, mid) <= node {
        lo := mid + 1;
      } else {
        hi := mid;
      }
    }
  }

  lemma AroundMiddle(data: Data, shape: Shape, mid: nat)
    requires HasShape(data, shape) && InOrder(data, shape) && mid < shape.entries
    ensures forall i | 0 <= i < mid :: NodeAt(data, shape, i) < NodeAt(data, shape, mid)
    ensures forall i | mid < i < shape.entries :: NodeAt(data, shape, mid) < NodeAt(data, shape, i)
  {
    var entries := EntriesOf(data, shape);
    forall i | 0 <= i < mid
      ensures NodeAt(data, shape, i) < NodeAt(data, shape, mid)
    {
      assert entries[i].node < entries[mid].node;
    }
    forall i | mid < i < shape.entries
      ensures NodeAt(data, shape, mid) < NodeAt(data, shape, i)
    {
      assert entries[mid].node < entries[i].node;
    }
  }

  /** The entry of the node in a stretch of the file, or the number of entries. */
  method FindInBlock(data: Data, shape: Shape, node: nat, start: nat, end: nat) returns (at: nat)
    requires HasShape(data, shape) && start <= end <= shape.entries
    ensures at <= shape.entries
    ensures at < shape.entries ==> NodeAt(data, shape, at) == node
    ensures InOrder(data, shape) && at == shape.entries ==>
              forall i | start <= i < end :: NodeAt(data, shape, i) != node
  {
    var lo, hi := start, end;
    while lo < hi
      invariant start <= lo <= hi <= end
      invariant InOrder(data, shape) ==> forall i | start <= i < lo :: NodeAt(data, shape, i) < node
      invariant InOrder(data, shape) ==> forall i | hi <= i < end :: node < NodeAt(data, shape, i)
    {
      var mid := lo + (hi - lo) / 2;
      var found := NodeAt(data, shape, mid);
      if InOrder(data, shape) {
        AroundMiddle(data, shape, mid);
      }
      if found < node {
        lo := mid + 1;
      } else if found > node {
        hi := mid;
      } else {
        return mid;
      }
    }
    return shape.entries;
  }

  lemma OutsideBlock(data: Data, shape: Shape, node: nat, lo: nat, i: nat)
    requires HasShape(data, shape) && InOrder(data, shape) && 0 < lo <= shape.blocks && i < shape.entries
    requires BlockFirst(data, shape, lo - 1) <= node
    requires lo < shape.blocks ==> node < BlockFirst(data, shape, lo)
    requires i < (lo - 1) * BLOCK || i >= lo * BLOCK
    ensures NodeAt(data, shape, i) != node
  {
    var entries := EntriesOf(data, shape);
    assert entries[i].node == NodeAt(data, shape, i);
    if i < (lo - 1) * BLOCK {
      assert BlockOk(data, shape, lo - 1);
      assert entries[i].node < entries[(lo - 1) * BLOCK].node;
    } else {
      assert BlockOk(data, shape, lo);
      assert i == lo * BLOCK || entries[lo * BLOCK].node < entries[i].node;
    }
  }

  /** On any data of the right shape the lookup ends within bounds. When the entries are sorted and the
      index is right, it finds exactly what the list of entries has. */
  method Lookup(data: Data, shape: Shape, node: nat) returns (d: Delta)
    requires HasShape(data, shape)
    ensures InOrder(data, shape) ==> d == Find(EntriesOf(data, shape), node)
  {
    ghost var entries := EntriesOf(data, shape);
    if shape.entries == 0 || shape.blocks == 0 {
      FindMissing(entries, node);
      return ZERO;
    }
    var lo := FindBlock(data, shape, node);
    if lo == 0 {
      if InOrder(data, shape) {
        BelowFirst(data, shape, node);
      }
      return ZERO;
    }
    var start := (lo - 1) * BLOCK;
    BlockInside(shape.entries, lo - 1);
    var end := if start + BLOCK < shape.entries then start + BLOCK else shape.entries;
    var at := FindInBlock(data, shape, node, start, end);
    if at < shape.entries {
      if InOrder(data, shape) {
        FindAt(entries, at);
      }
      return DeltaAt(data, shape, at);
    }
    if InOrder(data, shape) {
      NotInBlock(data, shape, node, lo, end);
    }
    return ZERO;
  }

  lemma BelowFirst(data: Data, shape: Shape, node: nat)
    requires HasShape(data, shape) && InOrder(data, shape) && shape.blocks > 0 && node < BlockFirst(data, shape, 0)
    ensures Find(EntriesOf(data, shape), node) == ZERO
  {
    var entries := EntriesOf(data, shape);
    assert BlockOk(data, shape, 0);
    forall i | 0 <= i < |entries|
      ensures entries[i].node != node
    {
      assert i == 0 || entries[0].node < entries[i].node;
    }
    FindMissing(entries, node);
  }

  lemma NotInBlock(data: Data, shape: Shape, node: nat, lo: nat, end: nat)
    requires HasShape(data, shape) && InOrder(data, shape) && 0 < lo <= shape.blocks
    requires BlockFirst(data, shape, lo - 1) <= node
    requires lo < shape.blocks ==> node < BlockFirst(data, shape, lo)
    requires end == if lo * BLOCK < shape.entries then lo * BLOCK else shape.entries
    requires forall i | (lo - 1) * BLOCK <= i < end :: NodeAt(data, shape, i) != node
    ensures Find(EntriesOf(data, shape), node) == ZERO
  {
    var entries := EntriesOf(data, shape);
    forall i | 0 <= i < |entries|
      ensures entries[i].node != node
    {
      assert entries[i].node == NodeAt(data, shape, i);
      if i < (lo - 1) * BLOCK || i >= lo * BLOCK {
        OutsideBlock(data, shape, node, lo, i);
      }
    }
    FindMissing(entries, node);
  }

  /** On a file that was written, or that the full check accepted, the lookup is lookup in its list. */
  lemma AcceptedIsInOrder(crc: Checksum, data: Data)
    requires Accepts(crc, data)
    ensures InOrder(data, ReadShape(data).value)
  {
    AcceptedIsEncoding(crc, data);
  }

  lemma WrittenIsInOrder(crc: Checksum, entries: seq<Entry>)
    requires CountFits(entries) && Canonical(entries)
    ensures var data, shape := Encode(crc, entries), Shape(|entries|, BlockCount(|entries|));
            && ReadShape(data) == Ok(shape) && InOrder(data, shape) && EntriesOf(data, shape) == entries
  {
    EncodingIsAccepted(crc, entries);
    EncodedEntriesRead(crc, entries);
    AcceptedIsInOrder(crc, Encode(crc, entries));
  }
}
