/** From a snapshot of the overlay to a sidecar file and back: nothing is lost. */
module DegreeFlush {
  import opened Bytes
  import opened DegreeLookup
  import opened DegreeOverlay
  import opened DegreeOverlayEdits
  import Sidecar = DegreeSidecar

  /** The overlay over degree deltas. */
  function DeltaOps(add: (Sidecar.Delta, Sidecar.Delta) -> Sidecar.Delta): Ops<Sidecar.Delta> {
    Ops(Sidecar.ZERO, add, Sidecar.IsZero)
  }

  type DeltaStore = Store<Sidecar.Delta>

  predicate NodesFit(list: Listing<Sidecar.Delta>) {
    forall i | 0 <= i < |list| :: list[i].0 < 0x1_0000_0000_0000_0000
  }

  function AsEntries(list: Listing<Sidecar.Delta>): (entries: seq<Sidecar.Entry>)
    requires NodesFit(list)
    ensures |entries| == |list|
  {
    seq(|list|, i requires 0 <= i < |list| => Sidecar.Entry(list[i].0, list[i].1))
  }

  lemma ListingIsCanonical(ops: Ops<Sidecar.Delta>, st: DeltaStore, r: nat, list: Listing<Sidecar.Delta>)
    requires RootOk(st, r) && ListsAll(ops, st, r, list) && NodesFit(list) && ops.isZero == Sidecar.IsZero
    ensures Sidecar.Canonical(AsEntries(list))
  {
    assert forall i | 0 <= i < |list| :: list[i] in list;
  }

  lemma ZeroIsAbsent(ops: Ops<Sidecar.Delta>, st: DeltaStore, r: nat, node: nat)
    requires Valid(ops, st) && r in st.roots && RootOk(st, r)
    ensures ops.isZero(Get(ops, st, r, node)) ==> Get(ops, st, r, node) == ops.zero
  {
    assert GroupOk(st, st.roots[r][GroupOf(node)]);
    assert ShardOk(ops, ShardRef(st, r, GroupOf(node), LocalOf(node)), EntriesOf(st, r, node));
  }

  lemma ListingFinds(ops: Ops<Sidecar.Delta>, st: DeltaStore, r: nat, list: Listing<Sidecar.Delta>, node: nat)
    requires Valid(ops, st) && r in st.roots && RootOk(st, r) && ListsAll(ops, st, r, list) && NodesFit(list)
    requires ops.isZero == Sidecar.IsZero && ops.zero == Sidecar.ZERO
    ensures Find(AsEntries(list), node) == Get(ops, st, r, node)
  {
    var entries := AsEntries(list);
    ListingIsCanonical(ops, st, r, list);
    ZeroIsAbsent(ops, st, r, node);
    if ops.isZero(Get(ops, st, r, node)) {
      forall i | 0 <= i < |entries|
        ensures entries[i].node != node
      {
        assert list[i] in list;
      }
      FindMissing(entries, node);
    } else {
      var i :| 0 <= i < |list| && list[i] == (node, Get(ops, st, r, node));
      FindAt(entries, i);
    }
  }

  /** A snapshot's listing always passes the sidecar writer, the file it writes passes the full check,
      and looking any node up in the file gives what the snapshot gives. */
  lemma FlushedSnapshotReadsBack(add: (Sidecar.Delta, Sidecar.Delta) -> Sidecar.Delta, crc: Sidecar.Checksum,
                                 st: DeltaStore, r: nat, list: Listing<Sidecar.Delta>, node: nat)
    requires Valid(DeltaOps(add), st) && r in st.roots && RootOk(st, r)
    requires ListsAll(DeltaOps(add), st, r, list) && NodesFit(list) && |list| < 0x1_0000_0000_0000_0000
    ensures WriterAccepts(DeltaOps(add), list, None)
    ensures var data := Sidecar.Encode(crc, AsEntries(list));
            && Sidecar.Accepts(crc, data)
            && Find(Sidecar.EntriesOf(data, Sidecar.ReadShape(data).value), node) == Get(DeltaOps(add), st, r, node)
  {
    ListingsAreWritable(DeltaOps(add), st, r, list);
    ListingIsCanonical(DeltaOps(add), st, r, list);
    ListingFinds(DeltaOps(add), st, r, list, node);
    Sidecar.EncodingIsAccepted(crc, AsEntries(list));
    WrittenIsInOrder(crc, AsEntries(list));
  }
}
