/** Editing the overlay step by step, and listing a snapshot for the sidecar writer. */
module DegreeOverlayEdits {
  import opened Bytes
  import opened DegreeOverlay

  class Overlays<D> {
    const ops: Ops<D>
    var store: Store<D>

    constructor (ops: Ops<D>)
      ensures this.ops == ops && Valid(ops, store) && store.roots == map[]
    {
      this.ops, store := ops, Store(map[], map[], map[], 0);
    }

    /** A mutable group: the one the edit holds if it is the only holder, a copy of it otherwise.
        Afterwards the edit is its only holder, and every edit and snapshot shows what it did. */
    method OwnGroup(r: nat, i: nat)
      requires Valid(ops, store) && r in store.roots && i < GROUPS
      modifies this
      ensures store == WithOwnGroup(old(store), r, i)
      ensures Valid(ops, store) && store.roots.Keys == old(store.roots.Keys)
      ensures RootOk(store, r) && HoldsGroupAlone(store, r, i)
      ensures forall r', node | r' in store.roots :: Get(ops, store, r', node) == old(Get(ops, store, r', node))
    {
      OwnGroupIsOk(ops, store, r, i);
      if !HoldsGroupAlone(store, r, i) {
        var copy := Ref(i, store.next);
        var groups := store.groups[copy := store.groups[store.roots[r][i]]];
        store := Store(store.shards, groups, store.roots[r := store.roots[r][i := copy]], store.next + 1);
      }
    }

    /** The same for a shard of a group that the edit holds alone. */
    method OwnShard(r: nat, i: nat, k: nat)
      requires Valid(ops, store) && r in store.roots && i < GROUPS && k < GROUP_SIZE
      requires RootOk(store, r) && HoldsGroupAlone(store, r, i)
      modifies this
      ensures store == WithOwnShard(old(store), old(store.roots[r][i]), k)
      ensures Valid(ops, store) && store.roots == old(store.roots)
      ensures RootOk(store, r) && HoldsGroupAlone(store, r, i) && HoldsShardAlone(store, store.roots[r][i], k)
      ensures forall r', node | r' in store.roots :: Get(ops, store, r', node) == old(Get(ops, store, r', node))
    {
      OwnShardIsOk(ops, store, r, i, k);
      var g := store.roots[r][i];
      if !HoldsShardAlone(store, g, k) {
        var copy := Ref(g.place * GROUP_SIZE + k, store.next);
        var shards := store.shards[copy := store.shards[store.groups[g][k]]];
        store := Store(shards, store.groups[g := store.groups[g][k := copy]], store.roots, store.next + 1);
      }
    }

    /** Adds a delta through an edit. No other edit or snapshot sees it. */
    method AddDelta(r: nat, node: nat, delta: D)
      requires Valid(ops, store) && r in store.roots
      modifies this
      ensures store == WithDelta(ops, old(store), r, node, delta)
      ensures Valid(ops, store) && store.roots.Keys == old(store.roots.Keys)
      ensures forall r', n | r' in store.roots ::
                Get(ops, store, r', n) == if r' == r && n == node then Sum(ops, old(Get(ops, store, r, node)), delta)
                                          else old(Get(ops, store, r', n))
    {
      AddDeltaMeans(ops, store, r, node, delta);
      if ops.isZero(delta) {
        return;
      }
      var i, k := GroupOf(node), LocalOf(node);
      OwnGroup(r, i);
      OwnShard(r, i, k);
      var s := ShardRef(store, r, i, k);
      var entries := store.shards[s];
      var sum := ops.add(if node in entries then entries[node] else ops.zero, delta);
      entries := if ops.isZero(sum) then entries - {node} else entries[node := sum];
      store := store.(shards := store.shards[s := entries]);
    }

    /** Ends an edit: zero entries are dropped from the shards it owns, of which there are none. */
    method Finish(r: nat)
      requires Valid(ops, store) && r in store.roots
      modifies this
      ensures store == WithFinished(ops, old(store), r) == old(store)
    {
      FinishChangesNothing(ops, store, r);
      assert RootOk(store, r);
      for i := 0 to GROUPS
        invariant store == old(store)
      {
        var g := store.roots[r][i];
        assert GroupOk(store, g);
        if HoldsGroupAlone(store, r, i) {
          for k := 0 to GROUP_SIZE
            invariant store == old(store)
          {
            if HoldsShardAlone(store, g, k) {
              var s := store.groups[g][k];
              assert ShardOk(ops, s, store.shards[s]);
              assert NonZero(ops, store.shards[s]) == store.shards[s];
              store := store.(shards := store.shards[s := NonZero(ops, store.shards[s])]);
            }
          }
        }
      }
    }
  }

  // ---- Listing a snapshot ----

  type Listing<D> = seq<(nat, D)>

  ghost predicate DistinctNodes<D(!new)>(list: Listing<D>) {
    forall a, b | 0 <= a < b < |list| :: list[a].0 != list[b].0
  }

  predicate SortedNodes<D(!new)>(list: Listing<D>) {
    forall a, b | 0 <= a < b < |list| :: list[a].0 < list[b].0
  }

  /** The entries of the shards before a position, and nothing else. */
  ghost predicate Collected<D(!new)>(st: Store<D>, r: nat, upto: nat, list: Listing<D>)
    requires RootOk(st, r)
  {
    && DistinctNodes(list)
    && forall e: (nat, D) :: e in list <==>
         ShardIndex(e.0) < upto && e.0 in EntriesOf(st, r, e.0) && EntriesOf(st, r, e.0)[e.0] == e.1
  }

  /** Appends a shard's entries in no particular order. */
  method AppendShard<D(!new)>(ops: Ops<D>, entries: Entries<D>, list: Listing<D>) returns (r: Listing<D>)
    requires DistinctNodes(list) && forall e | e in list :: e.0 !in entries
    ensures DistinctNodes(r)
    ensures forall e: (nat, D) :: e in r <==>
              e in list || (e.0 in entries && entries[e.0] == e.1 && !ops.isZero(e.1))
  {
    r := list;
    var left := entries.Keys;
    while left != {}
      invariant left <= entries.Keys && DistinctNodes(r)
      invariant forall e | e in r :: e.0 !in left
      invariant forall e: (nat, D) :: e in r <==>
                  e in list || (e.0 in entries && e.0 !in left && entries[e.0] == e.1 && !ops.isZero(e.1))
      decreases |left|
    {
      var node :| node in left;
      if !ops.isZero(entries[node]) {
        r := r + [(node, entries[node])];
      }
      left := left - {node};
    }
  }

  lemma InsertedSorted<D(!new)>(list: Listing<D>, k: nat, e: (nat, D))
    requires SortedNodes(list) && k <= |list|
    requires (forall a | 0 <= a < k :: list[a].0 < e.0) && (k < |list| ==> e.0 < list[k].0)
    ensures SortedNodes(list[..k] + [e] + list[k..])
  {
    var r := list[..k] + [e] + list[k..];
    forall a, b | 0 <= a < b < |r|
      ensures r[a].0 < r[b].0
    {
      assert a < k ==> r[a] == list[a];
      assert b < k ==> r[b] == list[b];
      assert a > k ==> r[a] == list[a - 1];
      assert b > k ==> r[b] == list[b - 1];
    }
  }

  lemma InsertedMembers<D(!new)>(list: Listing<D>, k: nat, e: (nat, D), x: (nat, D))
    requires k <= |list|
    ensures x in list[..k] + [e] + list[k..] <==> x in list || x == e
  {
    assert list == list[..k] + list[k..];
    assert x in list <==> x in list[..k] || x in list[k..];
  }

  method InsertEntry<D(!new)>(list: Listing<D>, e: (nat, D)) returns (r: Listing<D>)
    requires SortedNodes(list) && forall x | x in list :: x.0 != e.0
    ensures SortedNodes(r) && forall x: (nat, D) :: x in r <==> x in list || x == e
  {
    var k := 0;
    while k < |list| && list[k].0 < e.0
      invariant 0 <= k <= |list|
      invariant forall a | 0 <= a < k :: list[a].0 < e.0
    {
      k := k + 1;
    }
    assert k < |list| ==> list[k] in list;
    InsertedSorted(list, k, e);
    forall x: (nat, D)
      ensures x in list[..k] + [e] + list[k..] <==> x in list || x == e
    {
      InsertedMembers(list, k, e, x);
    }
    r := list[..k] + [e] + list[k..];
  }

  method SortEntries<D(!new)>(list: Listing<D>) returns (r: Listing<D>)
    requires DistinctNodes(list)
    ensures SortedNodes(r) && forall x: (nat, D) :: x in r <==> x in list
  {
    r := [];
    for k := 0 to |list|
      invariant SortedNodes(r) && forall x: (nat, D) :: x in r <==> x in list[..k]
    {
      assert list[..k + 1] == list[..k] + [list[k]];
      r := InsertEntry(r, list[k]);
    }
    assert list[..|list|] == list;
  }

  lemma ShardCollected<D(!new)>(ops: Ops<D>, st: Store<D>, r: nat, i: nat, k: nat, list: Listing<D>, list': Listing<D>)
    requires Valid(ops, st) && RootOk(st, r) && i < GROUPS && k < GROUP_SIZE
    requires Collected(st, r, i * GROUP_SIZE + k, list) && DistinctNodes(list')
    requires var entries := st.shards[ShardRef(st, r, i, k)];
             forall e: (nat, D) :: e in list' <==>
               e in list || (e.0 in entries && entries[e.0] == e.1 && !ops.isZero(e.1))
    ensures Collected(st, r, i * GROUP_SIZE + k + 1, list')
  {
    var s := ShardRef(st, r, i, k);
    assert GroupOk(st, st.roots[r][i]);
    assert s.place == i * GROUP_SIZE + k && ShardOk(ops, s, st.shards[s]);
    forall e: (nat, D)
      ensures e in list' <==> ShardIndex(e.0) < i * GROUP_SIZE + k + 1 && e.0 in EntriesOf(st, r, e.0) && EntriesOf(st, r, e.0)[e.0] == e.1
    {
      if ShardIndex(e.0) == i * GROUP_SIZE + k {
        assert GroupOf(e.0) == i && LocalOf(e.0) == k;
      }
    }
  }

  lemma NotYetCollected<D(!new)>(ops: Ops<D>, st: Store<D>, r: nat, i: nat, k: nat, list: Listing<D>)
    requires Valid(ops, st) && RootOk(st, r) && i < GROUPS && k < GROUP_SIZE
    requires Collected(st, r, i * GROUP_SIZE + k, list)
    ensures forall e | e in list :: e.0 !in st.shards[ShardRef(st, r, i, k)]
  {
    var s := ShardRef(st, r, i, k);
    assert GroupOk(st, st.roots[r][i]);
    assert ShardOk(ops, s, st.shards[s]);
  }

  /** Every nonzero node of a root once, by ascending id. */
  ghost predicate ListsAll<D(!new)>(ops: Ops<D>, st: Store<D>, r: nat, list: Listing<D>)
    requires RootOk(st, r)
  {
    && SortedNodes(list)
    && (forall e | e in list :: !ops.isZero(e.1) && Get(ops, st, r, e.0) == e.1)
    && (forall node: nat :: !ops.isZero(Get(ops, st, r, node)) ==> (node, Get(ops, st, r, node)) in list)
  }

  method SortedEntries<D(!new)>(ops: Ops<D>, st: Store<D>, r: nat) returns (list: Listing<D>)
    requires Valid(ops, st) && r in st.roots && RootOk(st, r) && ops.isZero(ops.zero)
    ensures ListsAll(ops, st, r, list)
  {
    var all: Listing<D> := [];
    for i := 0 to GROUPS
      invariant Collected(st, r, i * GROUP_SIZE, all)
    {
      for k := 0 to GROUP_SIZE
        invariant Collected(st, r, i * GROUP_SIZE + k, all)
      {
        NotYetCollected(ops, st, r, i, k, all);
        var next := AppendShard(ops, st.shards[ShardRef(st, r, i, k)], all);
        ShardCollected(ops, st, r, i, k, all, next);
        all := next;
      }
    }
    list := SortEntries(all);
    CollectedAll(ops, st, r, all, list);
  }

  lemma CollectedAll<D(!new)>(ops: Ops<D>, st: Store<D>, r: nat, all: Listing<D>, list: Listing<D>)
    requires Valid(ops, st) && r in st.roots && RootOk(st, r) && ops.isZero(ops.zero)
    requires Collected(st, r, SHARDS, all) && SortedNodes(list) && forall x: (nat, D) :: x in list <==> x in all
    ensures ListsAll(ops, st, r, list)
  {
    forall e | e in list
      ensures !ops.isZero(e.1) && Get(ops, st, r, e.0) == e.1
    {
      assert e in all && GroupOk(st, st.roots[r][GroupOf(e.0)]);
      assert ShardOk(ops, ShardRef(st, r, GroupOf(e.0), LocalOf(e.0)), EntriesOf(st, r, e.0));
    }
    forall node | !ops.isZero(Get(ops, st, r, node))
      ensures (node, Get(ops, st, r, node)) in list
    {
      assert node in EntriesOf(st, r, node);
      assert (node, Get(ops, st, r, node)) in all;
    }
  }

  /** The sidecar writer's check of what it is given. */
  predicate WriterAccepts<D(!new)>(ops: Ops<D>, list: Listing<D>, previous: Option<nat>)
    decreases |list|
  {
    list == [] ||
    (&& !ops.isZero(list[0].1)
     && (previous.Some? ==> previous.value < list[0].0)
     && WriterAccepts(ops, list[1..], Some(list[0].0)))
  }

  method CheckEntries<D(!new)>(ops: Ops<D>, list: Listing<D>) returns (ok: bool)
    ensures ok <==> WriterAccepts(ops, list, None)
  {
    var previous: Option<nat> := None;
    for k := 0 to |list|
      invariant WriterAccepts(ops, list[k..], previous) == WriterAccepts(ops, list, None)
    {
      if ops.isZero(list[k].1) || (previous.Some? && previous.value >= list[k].0) {
        return false;
      }
      assert list[k..][1..] == list[k + 1..];
      previous := Some(list[k].0);
    }
    return true;
  }

  /** The writer accepts exactly strictly ascending lists without zeros. */
  lemma {:induction false} WriterAcceptsExactly<D(!new)>(ops: Ops<D>, list: Listing<D>, previous: Option<nat>)
    ensures WriterAccepts(ops, list, previous) <==>
            && SortedNodes(list) && (forall e | e in list :: !ops.isZero(e.1))
            && (previous.Some? && list != [] ==> previous.value < list[0].0)
    decreases |list|
  {
    if list != [] {
      var rest := list[1..];
      WriterAcceptsExactly(ops, rest, Some(list[0].0));
      assert list == [list[0]] + rest;
      if rest != [] {
        assert rest[0] == list[1];
      }
      if SortedNodes(rest) && (rest != [] ==> list[0].0 < rest[0].0) {
        forall a, b | 0 <= a < b < |list|
          ensures list[a].0 < list[b].0
        {
          assert list[b] == rest[b - 1];
          if a > 0 {
            assert list[a] == rest[a - 1];
          } else if b > 1 {
            assert rest[0].0 < rest[b - 1].0;
          }
        }
      }
    }
  }

  /** What a snapshot lists always passes the writer's check. */
  lemma ListingsAreWritable<D(!new)>(ops: Ops<D>, st: Store<D>, r: nat, list: Listing<D>)
    requires RootOk(st, r) && ListsAll(ops, st, r, list)
    ensures WriterAccepts(ops, list, None)
  {
    WriterAcceptsExactly(ops, list, None);
  }
}
