/** The sharded copy-on-write degree overlay: shards and groups are shared by reference counting, and
    changed in place only while nobody else holds them. */
module DegreeOverlay {
  import opened Bytes

  const GROUPS := 8
  const GROUP_SIZE := 128
  const SHARDS := 1024

  /** What the overlay needs of a delta: the zero, addition, and the test for zero. */
  datatype Ops<!D> = Ops(zero: D, add: (D, D) -> D, isZero: D -> bool)

  /** A reference to an allocated shard or group: its place, and a serial number telling copies apart. */
  datatype Ref = Ref(place: nat, serial: nat)

  type Entries<D> = map<nat, D>

  /** Shards and groups by reference; each root is an open edit or a snapshot. */
  datatype Store<D> = Store(shards: map<Ref, Entries<D>>, groups: map<Ref, seq<Ref>>, roots: map<nat, seq<Ref>>, next: nat)

  function ShardIndex(node: nat): (i: nat)
    ensures i < SHARDS && i / GROUP_SIZE < GROUPS
  {
    node % SHARDS
  }

  function GroupOf(node: nat): (i: nat)
    ensures i < GROUPS
  {
    ShardIndex(node) / GROUP_SIZE
  }

  function LocalOf(node: nat): (k: nat)
    ensures k < GROUP_SIZE && ShardIndex(node) == GroupOf(node) * GROUP_SIZE + k
  {
    ShardIndex(node) % GROUP_SIZE
  }

  // ---- Well-formed stores ----

  predicate GroupOk<D>(st: Store<D>, g: Ref) {
    && g in st.groups && |st.groups[g]| == GROUP_SIZE && g.serial < st.next
    && forall k | 0 <= k < GROUP_SIZE ::
         st.groups[g][k] in st.shards && st.groups[g][k].place == g.place * GROUP_SIZE + k
         && st.groups[g][k].serial < st.next
  }

  predicate RootOk<D>(st: Store<D>, r: nat) {
    && r in st.roots && |st.roots[r]| == GROUPS
    && forall i | 0 <= i < GROUPS :: GroupOk(st, st.roots[r][i]) && st.roots[r][i].place == i
  }

  /** Only nonzero entries, each in its own shard. */
  predicate ShardOk<D>(ops: Ops<D>, s: Ref, entries: Entries<D>) {
    forall node | node in entries :: ShardIndex(node) == s.place && !ops.isZero(entries[node])
  }

  ghost predicate Valid<D>(ops: Ops<D>, st: Store<D>) {
    && (forall r | r in st.roots :: RootOk(st, r))
    && (forall s | s in st.shards :: s.serial < st.next && ShardOk(ops, s, st.shards[s]))
    && (forall g | g in st.groups :: g.serial < st.next)
  }

  function ShardRef<D>(st: Store<D>, r: nat, i: nat, k: nat): Ref
    requires RootOk(st, r) && i < GROUPS && k < GROUP_SIZE
  {
    st.groups[st.roots[r][i]][k]
  }

  function EntriesOf<D>(st: Store<D>, r: nat, node: nat): Entries<D>
    requires RootOk(st, r)
  {
    st.shards[ShardRef(st, r, GroupOf(node), LocalOf(node))]
  }

  /** The delta of a node in a root. */
  function Get<D>(ops: Ops<D>, st: Store<D>, r: nat, node: nat): D
    requires RootOk(st, r)
  {
    var entries := EntriesOf(st, r, node);
    if node in entries then entries[node] else ops.zero
  }

  // ---- Copy on write ----

  /** Nobody but this root holds the group. */
  predicate HoldsGroupAlone<D>(st: Store<D>, r: nat, i: nat)
    requires r in st.roots && i < |st.roots[r]|
  {
    forall r', j | r' in st.roots && 0 <= j < |st.roots[r']| && st.roots[r'][j] == st.roots[r][i] :: r' == r && j == i
  }

  /** Nobody but this group, among those some root holds, holds the shard. */
  predicate HoldsShardAlone<D>(st: Store<D>, g: Ref, k: nat)
    requires g in st.groups && k < |st.groups[g]|
  {
    forall r, j, k' | r in st.roots && 0 <= j < |st.roots[r]| && st.roots[r][j] in st.groups &&
                      0 <= k' < |st.groups[st.roots[r][j]]| && st.groups[st.roots[r][j]][k'] == st.groups[g][k] ::
      st.roots[r][j] == g && k' == k
  }

  function WithOwnGroup<D>(st: Store<D>, r: nat, i: nat): Store<D>
    requires RootOk(st, r) && i < GROUPS
  {
    if HoldsGroupAlone(st, r, i) then st
    else
      var copy := Ref(i, st.next);
      st.(groups := st.groups[copy := st.groups[st.roots[r][i]]],
          roots := st.roots[r := st.roots[r][i := copy]],
          next := st.next + 1)
  }

  function WithOwnShard<D>(st: Store<D>, g: Ref, k: nat): Store<D>
    requires GroupOk(st, g) && k < GROUP_SIZE
  {
    if HoldsShardAlone(st, g, k) then st
    else
      var copy := Ref(g.place * GROUP_SIZE + k, st.next);
      st.(shards := st.shards[copy := st.shards[st.groups[g][k]]],
          groups := st.groups[g := st.groups[g][k := copy]],
          next := st.next + 1)
  }

  /** One shard's entries with a delta added; a sum that is zero is dropped. */
  function Added<D>(ops: Ops<D>, entries: Entries<D>, node: nat, delta: D): Entries<D> {
    var sum := ops.add(if node in entries then entries[node] else ops.zero, delta);
    if ops.isZero(sum) then entries - {node} else entries[node := sum]
  }

  lemma OwnGroupIsOk<D>(ops: Ops<D>, st: Store<D>, r: nat, i: nat)
    requires Valid(ops, st) && r in st.roots && i < GROUPS
    ensures var st' := WithOwnGroup(st, r, i);
            && Valid(ops, st') && st'.roots.Keys == st.roots.Keys && RootOk(st', r) && HoldsGroupAlone(st', r, i)
            && forall r', node | r' in st.roots :: Get(ops, st', r', node) == Get(ops, st, r', node)
  {
    assert RootOk(st, r);
    var st' := WithOwnGroup(st, r, i);
    if !HoldsGroupAlone(st, r, i) {
      var copy := Ref(i, st.next);
      forall r' | r' in st'.roots
        ensures RootOk(st', r')
      {
        assert RootOk(st, r');
        forall j | 0 <= j < GROUPS
          ensures GroupOk(st', st'.roots[r'][j]) && st'.roots[r'][j].place == j
        {
          assert GroupOk(st, st.roots[r'][j]);
        }
      }
    }
  }

  lemma OwnShardIsOk<D>(ops: Ops<D>, st: Store<D>, r: nat, i: nat, k: nat)
    requires Valid(ops, st) && r in st.roots && i < GROUPS && k < GROUP_SIZE && RootOk(st, r)
    requires HoldsGroupAlone(st, r, i)
    ensures var g := st.roots[r][i];
            var st' := WithOwnShard(st, g, k);
            && Valid(ops, st') && st'.roots == st.roots && RootOk(st', r)
            && HoldsGroupAlone(st', r, i) && HoldsShardAlone(st', g, k)
            && forall r', node | r' in st.roots :: Get(ops, st', r', node) == Get(ops, st, r', node)
  {
    var g := st.roots[r][i];
    var st' := WithOwnShard(st, g, k);
    assert GroupOk(st, g);
    forall r' | r' in st'.roots
      ensures RootOk(st', r')
      ensures forall node :: Get(ops, st', r', node) == Get(ops, st, r', node)
    {
      assert RootOk(st, r');
      OwnShardKeepsRoot(ops, st, g, k, r');
    }
    assert RootOk(st', r);
  }

  lemma OwnShardKeepsRoot<D>(ops: Ops<D>, st: Store<D>, g: Ref, k: nat, r: nat)
    requires GroupOk(st, g) && k < GROUP_SIZE && RootOk(st, r)
    requires forall s | s in st.shards :: s.serial < st.next
    ensures RootOk(WithOwnShard(st, g, k), r)
    ensures forall node :: Get(ops, WithOwnShard(st, g, k), r, node) == Get(ops, st, r, node)
  {
    var st' := WithOwnShard(st, g, k);
    forall j | 0 <= j < GROUPS
      ensures GroupOk(st', st'.roots[r][j]) && st'.roots[r][j].place == j
    {
      assert GroupOk(st, st.roots[r][j]);
    }
    forall node
      ensures Get(ops, st', r, node) == Get(ops, st, r, node)
    {
      assert GroupOk(st, st.roots[r][GroupOf(node)]);
    }
  }

  function Mutated<D>(ops: Ops<D>, st: Store<D>, r: nat, node: nat, delta: D): Store<D>
    requires RootOk(st, r)
  {
    var s := ShardRef(st, r, GroupOf(node), LocalOf(node));
    st.(shards := st.shards[s := Added(ops, st.shards[s], node, delta)])
  }

  /** Adding a delta through an edit: copy what is shared, then change the shard in place. */
  function WithDelta<D>(ops: Ops<D>, st: Store<D>, r: nat, node: nat, delta: D): Store<D>
    requires Valid(ops, st) && r in st.roots
  {
    if ops.isZero(delta) then st
    else
      OwnGroupIsOk(ops, st, r, GroupOf(node));
      var st1 := WithOwnGroup(st, r, GroupOf(node));
      OwnShardIsOk(ops, st1, r, GroupOf(node), LocalOf(node));
      Mutated(ops, WithOwnShard(st1, st1.roots[r][GroupOf(node)], LocalOf(node)), r, node, delta)
  }

  /** What the delta of a node becomes. */
  function Sum<D>(ops: Ops<D>, before: D, delta: D): D {
    if ops.isZero(delta) then before
    else if ops.isZero(ops.add(before, delta)) then ops.zero
    else ops.add(before, delta)
  }

  lemma MutationIsPrivate<D>(ops: Ops<D>, st: Store<D>, r: nat, node: nat, delta: D)
    requires Valid(ops, st) && r in st.roots && RootOk(st, r) && !ops.isZero(delta)
    requires HoldsGroupAlone(st, r, GroupOf(node))
    requires HoldsShardAlone(st, st.roots[r][GroupOf(node)], LocalOf(node))
    ensures var st' := Mutated(ops, st, r, node, delta);
            && Valid(ops, st') && st'.roots == st.roots
            && forall r', n | r' in st.roots ::
                 Get(ops, st', r', n) == if r' == r && n == node then Sum(ops, Get(ops, st, r, node), delta)
                                         else Get(ops, st, r', n)
  {
    var st' := Mutated(ops, st, r, node, delta);
    var s := ShardRef(st, r, GroupOf(node), LocalOf(node));
    assert s.place == ShardIndex(node);
    forall r' | r' in st'.roots
      ensures RootOk(st', r')
    {
      assert RootOk(st, r');
      assert forall j | 0 <= j < GROUPS :: GroupOk(st, st.roots[r'][j]);
    }
    forall r', n | r' in st.roots
      ensures Get(ops, st', r', n) == if r' == r && n == node then Sum(ops, Get(ops, st, r, node), delta)
                                      else Get(ops, st, r', n)
    {
      assert RootOk(st, r') && GroupOk(st, st.roots[r'][GroupOf(n)]);
    }
  }

  /** Adding a delta changes one node of one root, and nothing any other root shows. */
  lemma AddDeltaMeans<D>(ops: Ops<D>, st: Store<D>, r: nat, node: nat, delta: D)
    requires Valid(ops, st) && r in st.roots
    ensures var st' := WithDelta(ops, st, r, node, delta);
            && Valid(ops, st') && st'.roots.Keys == st.roots.Keys
            && forall r', n | r' in st.roots ::
                 Get(ops, st', r', n) == if r' == r && n == node then Sum(ops, Get(ops, st, r, node), delta)
                                         else Get(ops, st, r', n)
  {
    if !ops.isZero(delta) {
      var i, k := GroupOf(node), LocalOf(node);
      OwnGroupIsOk(ops, st, r, i);
      var st1 := WithOwnGroup(st, r, i);
      OwnShardIsOk(ops, st1, r, i, k);
      var st2 := WithOwnShard(st1, st1.roots[r][i], k);
      MutationIsPrivate(ops, st2, r, node, delta);
      assert Get(ops, st2, r, node) == Get(ops, st, r, node);
    }
  }

  // ---- The other operations ----

  function FreshShards<D>(serial: nat, n: nat): (shards: map<Ref, Entries<D>>)
    ensures forall s :: s in shards <==> s.serial == serial && s.place < n
    ensures forall s | s in shards :: shards[s] == map[]
  {
    if n == 0 then map[] else FreshShards(serial, n - 1)[Ref(n - 1, serial) := map[]]
  }

  function FreshGroup(serial: nat, place: nat): seq<Ref> {
    seq(GROUP_SIZE, k requires 0 <= k => Ref(place * GROUP_SIZE + k, serial))
  }

  function FreshGroups(serial: nat, n: nat): (groups: map<Ref, seq<Ref>>)
    ensures forall g :: g in groups <==> g.serial == serial && g.place < n
    ensures forall g | g in groups :: groups[g] == FreshGroup(serial, g.place)
  {
    if n == 0 then map[] else FreshGroups(serial, n - 1)[Ref(n - 1, serial) := FreshGroup(serial, n - 1)]
  }

  /** An empty snapshot, on fresh groups and shards. */
  function WithEmpty<D>(st: Store<D>, r: nat): Store<D> {
    Store(st.shards + FreshShards(st.next, SHARDS), st.groups + FreshGroups(st.next, GROUPS),
          st.roots[r := seq(GROUPS, i requires 0 <= i => Ref(i, st.next))], st.next + 1)
  }

  /** An edit holds the groups of its base. */
  function WithEdit<D>(st: Store<D>, base: nat, r: nat): Store<D>
    requires base in st.roots
  {
    st.(roots := st.roots[r := st.roots[base]])
  }

  function NonZero<D>(ops: Ops<D>, entries: Entries<D>): Entries<D> {
    map node | node in entries && !ops.isZero(entries[node]) :: entries[node]
  }

  /** Whether the shard is one an edit could reach in place when it finishes. */
  predicate OwnedBy<D>(st: Store<D>, r: nat, s: Ref)
    requires r in st.roots
  {
    exists i, k | 0 <= i < |st.roots[r]| && st.roots[r][i] in st.groups && 0 <= k < |st.groups[st.roots[r][i]]| ::
      HoldsGroupAlone(st, r, i) && HoldsShardAlone(st, st.roots[r][i], k) && st.groups[st.roots[r][i]][k] == s
  }

  /** Finishing an edit drops zero entries from what it owns; its groups become the snapshot. */
  function WithFinished<D>(ops: Ops<D>, st: Store<D>, r: nat): Store<D>
    requires r in st.roots
  {
    st.(shards := map s | s in st.shards :: if OwnedBy(st, r, s) then NonZero(ops, st.shards[s]) else st.shards[s])
  }

  function WithoutRoot<D>(st: Store<D>, r: nat): Store<D> {
    st.(roots := st.roots - {r})
  }

  lemma FinishChangesNothing<D>(ops: Ops<D>, st: Store<D>, r: nat)
    requires Valid(ops, st) && r in st.roots
    ensures WithFinished(ops, st, r) == st
  {
    forall s | s in st.shards
      ensures NonZero(ops, st.shards[s]) == st.shards[s]
    {
      assert ShardOk(ops, s, st.shards[s]);
    }
    assert WithFinished(ops, st, r).shards == st.shards;
  }

  lemma RootsStayOk<D>(st: Store<D>, st': Store<D>, r: nat)
    requires RootOk(st, r) && r in st'.roots && st'.roots[r] == st.roots[r] && st.next <= st'.next
    requires forall g | g in st.groups && g.serial < st.next :: g in st'.groups && st'.groups[g] == st.groups[g]
    requires forall s | s in st.shards && s.serial < st.next :: s in st'.shards && st'.shards[s] == st.shards[s]
    ensures RootOk(st', r)
    ensures forall node :: EntriesOf(st', r, node) == EntriesOf(st, r, node)
  {
    forall i | 0 <= i < GROUPS
      ensures GroupOk(st', st'.roots[r][i])
    {
      assert GroupOk(st, st.roots[r][i]);
    }
    forall node
      ensures EntriesOf(st', r, node) == EntriesOf(st, r, node)
    {
      assert GroupOk(st, st.roots[r][GroupOf(node)]);
    }
  }

  lemma EmptyRootOk<D>(st: Store<D>, r: nat)
    ensures RootOk(WithEmpty(st, r), r)
    ensures forall node :: EntriesOf(WithEmpty(st, r), r, node) == map[]
  {
    var st' := WithEmpty(st, r);
    forall i | 0 <= i < GROUPS
      ensures GroupOk(st', st'.roots[r][i]) && st'.roots[r][i] == Ref(i, st.next)
      ensures st'.groups[st'.roots[r][i]] == FreshGroup(st.next, i)
    {
      FreshGroupOk(st, r, i);
    }
  }

  lemma FreshGroupOk<D>(st: Store<D>, r: nat, i: nat)
    requires i < GROUPS
    ensures GroupOk(WithEmpty(st, r), Ref(i, st.next)) && WithEmpty(st, r).groups[Ref(i, st.next)] == FreshGroup(st.next, i)
  {
    assert Ref(i, st.next) in FreshGroups(st.next, GROUPS);
  }

  lemma EmptyShardsOk<D>(ops: Ops<D>, st: Store<D>, r: nat)
    requires Valid(ops, st)
    ensures var st' := WithEmpty(st, r);
            && (forall s | s in st'.shards :: s.serial < st'.next && ShardOk(ops, s, st'.shards[s]))
            && (forall g | g in st'.groups :: g.serial < st'.next)
  {
  }

  lemma EmptyIsOk<D>(ops: Ops<D>, st: Store<D>, r: nat)
    requires Valid(ops, st) && r !in st.roots
    ensures var st' := WithEmpty(st, r);
            && Valid(ops, st') && st'.roots.Keys == st.roots.Keys + {r}
            && (forall node :: Get(ops, st', r, node) == ops.zero)
            && forall r', node | r' in st.roots :: Get(ops, st', r', node) == Get(ops, st, r', node)
  {
    var st' := WithEmpty(st, r);
    EmptyRootOk(st, r);
    EmptyShardsOk(ops, st, r);
    forall r' | r' in st.roots
      ensures RootOk(st', r') && forall node :: EntriesOf(st', r', node) == EntriesOf(st, r', node)
    {
      assert RootOk(st, r');
      RootsStayOk(st, st', r');
    }
  }

  lemma EditIsOk<D>(ops: Ops<D>, st: Store<D>, base: nat, r: nat)
    requires Valid(ops, st) && base in st.roots && r !in st.roots
    ensures var st' := WithEdit(st, base, r);
            && Valid(ops, st') && st'.roots.Keys == st.roots.Keys + {r}
            && (forall node :: Get(ops, st', r, node) == Get(ops, st, base, node))
            && forall r', node | r' in st.roots :: Get(ops, st', r', node) == Get(ops, st, r', node)
  {
    var st' := WithEdit(st, base, r);
    forall r' | r' in st'.roots
      ensures RootOk(st', r')
    {
      var from := if r' == r then base else r';
      assert RootOk(st, from);
      assert forall i | 0 <= i < GROUPS :: GroupOk(st, st.roots[from][i]) && GroupOk(st', st.roots[from][i]);
    }
  }

  lemma DropIsOk<D>(ops: Ops<D>, st: Store<D>, r: nat)
    requires Valid(ops, st)
    ensures var st' := WithoutRoot(st, r);
            && Valid(ops, st') && st'.roots.Keys == st.roots.Keys - {r}
            && forall r', node | r' in st'.roots :: Get(ops, st', r', node) == Get(ops, st, r', node)
  {
    var st' := WithoutRoot(st, r);
    forall r' | r' in st'.roots
      ensures RootOk(st', r')
    {
      assert RootOk(st, r');
      assert forall i | 0 <= i < GROUPS :: GroupOk(st, st.roots[r'][i]) && GroupOk(st', st.roots[r'][i]);
    }
  }

  // ---- Runs ----

  datatype Event<D> =
    | Empty(r: nat)
    | NewEdit(base: nat, r: nat)
    | AddDelta(r: nat, node: nat, delta: D)
    | Finish(r: nat)
    | Drop(r: nat)

  /** The references held, and which of them are snapshots. */
  datatype State<D> = State(store: Store<D>, snapshots: set<nat>)

  predicate Allowed<D>(s: State<D>, e: Event<D>) {
    match e
    case Empty(r) => r !in s.store.roots
    case NewEdit(base, r) => base in s.snapshots && base in s.store.roots && r !in s.store.roots
    case AddDelta(r, _, _) => r in s.store.roots && r !in s.snapshots
    case Finish(r) => r in s.store.roots && r !in s.snapshots
    case Drop(r) => r in s.store.roots
  }

  function Next<D>(ops: Ops<D>, s: State<D>, e: Event<D>): State<D>
    requires Valid(ops, s.store) && Allowed(s, e)
  {
    match e
    case Empty(r) => State(WithEmpty(s.store, r), s.snapshots + {r})
    case NewEdit(base, r) => s.(store := WithEdit(s.store, base, r))
    case AddDelta(r, node, delta) => s.(store := WithDelta(ops, s.store, r, node, delta))
    case Finish(r) => State(WithFinished(ops, s.store, r), s.snapshots + {r})
    case Drop(r) => State(WithoutRoot(s.store, r), s.snapshots - {r})
  }

  type Flat<D> = map<nat, D>

  function FlatGet<D>(ops: Ops<D>, m: Flat<D>, node: nat): D { if node in m then m[node] else ops.zero }

  /** Adding a delta to one flat map: zero deltas do nothing and zero sums are left out. */
  function FlatAdd<D>(ops: Ops<D>, m: Flat<D>, node: nat, delta: D): Flat<D> {
    if ops.isZero(delta) then m else Added(ops, m, node, delta)
  }

  /** What each reference should show: one flat map each, never shared. */
  function FlatNext<D>(ops: Ops<D>, flats: map<nat, Flat<D>>, e: Event<D>): map<nat, Flat<D>> {
    match e
    case Empty(r) => flats[r := map[]]
    case NewEdit(base, r) => if base in flats then flats[r := flats[base]] else flats
    case AddDelta(r, node, delta) => if r in flats then flats[r := FlatAdd(ops, flats[r], node, delta)] else flats
    case Finish(r) => flats
    case Drop(r) => flats - {r}
  }

  ghost predicate ShowsFlat<D>(ops: Ops<D>, st: Store<D>, r: nat, m: Flat<D>) {
    RootOk(st, r) && forall node :: Get(ops, st, r, node) == FlatGet(ops, m, node)
  }

  /** Every held reference shows exactly its flat map. */
  ghost predicate Shows<D>(ops: Ops<D>, st: Store<D>, flats: map<nat, Flat<D>>) {
    st.roots.Keys == flats.Keys && forall r | r in flats :: ShowsFlat(ops, st, r, flats[r])
  }

  lemma SumIsFlat<D>(ops: Ops<D>, m: Flat<D>, node: nat, delta: D, n: nat)
    ensures FlatGet(ops, FlatAdd(ops, m, node, delta), n) ==
            if n == node then Sum(ops, FlatGet(ops, m, node), delta) else FlatGet(ops, m, n)
  {
  }

  lemma AddShows<D>(ops: Ops<D>, st: Store<D>, r: nat, m: Flat<D>, node: nat, delta: D)
    requires Valid(ops, st) && r in st.roots && ShowsFlat(ops, st, r, m)
    ensures Valid(ops, WithDelta(ops, st, r, node, delta)) && r in WithDelta(ops, st, r, node, delta).roots
    ensures ShowsFlat(ops, WithDelta(ops, st, r, node, delta), r, FlatAdd(ops, m, node, delta))
  {
    AddDeltaMeans(ops, st, r, node, delta);
    forall n
      ensures FlatGet(ops, FlatAdd(ops, m, node, delta), n) ==
              if n == node then Sum(ops, FlatGet(ops, m, node), delta) else FlatGet(ops, m, n)
    {
      SumIsFlat(ops, m, node, delta, n);
    }
    assert RootOk(WithDelta(ops, st, r, node, delta), r);
  }

  lemma StepShowsOne<D>(ops: Ops<D>, s: State<D>, flats: map<nat, Flat<D>>, e: Event<D>, r: nat)
    requires Valid(ops, s.store) && Shows(ops, s.store, flats) && Allowed(s, e) && r in FlatNext(ops, flats, e)
    requires Valid(ops, Next(ops, s, e).store) && r in Next(ops, s, e).store.roots
    ensures ShowsFlat(ops, Next(ops, s, e).store, r, FlatNext(ops, flats, e)[r])
  {
    var st' := Next(ops, s, e).store;
    assert RootOk(st', r);
    assert r in flats ==> ShowsFlat(ops, s.store, r, flats[r]);
    match e
    case Empty(r') => EmptyIsOk(ops, s.store, r');
    case NewEdit(base, r') =>
      EditIsOk(ops, s.store, base, r');
      assert ShowsFlat(ops, s.store, base, flats[base]);
    case AddDelta(r', node, delta) =>
      if r == r' {
        AddShows(ops, s.store, r, flats[r], node, delta);
      } else {
        AddDeltaMeans(ops, s.store, r', node, delta);
      }
    case Finish(r') => FinishChangesNothing(ops, s.store, r');
    case Drop(r') => DropIsOk(ops, s.store, r');
  }

  lemma StepIsValid<D>(ops: Ops<D>, s: State<D>, e: Event<D>)
    requires Valid(ops, s.store) && Allowed(s, e)
    ensures Valid(ops, Next(ops, s, e).store)
    ensures Next(ops, s, e).store.roots.Keys ==
            match e
            case Empty(r) => s.store.roots.Keys + {r}
            case NewEdit(_, r) => s.store.roots.Keys + {r}
            case Drop(r) => s.store.roots.Keys - {r}
            case _ => s.store.roots.Keys
  {
    match e
    case Empty(r) => EmptyIsOk(ops, s.store, r);
    case NewEdit(base, r) => EditIsOk(ops, s.store, base, r);
    case AddDelta(r, node, delta) => AddDeltaMeans(ops, s.store, r, node, delta);
    case Finish(r) => FinishChangesNothing(ops, s.store, r);
    case Drop(r) => DropIsOk(ops, s.store, r);
  }

  lemma StepRoots<D>(ops: Ops<D>, s: State<D>, flats: map<nat, Flat<D>>, e: Event<D>)
    requires Valid(ops, s.store) && Allowed(s, e) && s.store.roots.Keys == flats.Keys
    ensures Next(ops, s, e).store.roots.Keys == FlatNext(ops, flats, e).Keys
  {
    StepIsValid(ops, s, e);
  }

  lemma StepShows<D>(ops: Ops<D>, s: State<D>, flats: map<nat, Flat<D>>, e: Event<D>)
    requires Valid(ops, s.store) && Shows(ops, s.store, flats) && Allowed(s, e)
    ensures Valid(ops, Next(ops, s, e).store) && Shows(ops, Next(ops, s, e).store, FlatNext(ops, flats, e))
  {
    StepIsValid(ops, s, e);
    StepRoots(ops, s, flats, e);
    forall r | r in FlatNext(ops, flats, e)
      ensures ShowsFlat(ops, Next(ops, s, e).store, r, FlatNext(ops, flats, e)[r])
    {
      StepShowsOne(ops, s, flats, e, r);
    }
  }

  /** The events happen one after another, each allowed where it happens. */
  ghost predicate CanRun<D>(ops: Ops<D>, s: State<D>, events: seq<Event<D>>)
    requires Valid(ops, s.store)
    decreases |events|
  {
    events == [] || (Allowed(s, events[0]) && (StepIsValid(ops, s, events[0]); CanRun(ops, Next(ops, s, events[0]), events[1..])))
  }

  ghost function Run<D>(ops: Ops<D>, s: State<D>, events: seq<Event<D>>): State<D>
    requires Valid(ops, s.store) && CanRun(ops, s, events)
    decreases |events|
  {
    if events == [] then s else (StepIsValid(ops, s, events[0]); Run(ops, Next(ops, s, events[0]), events[1..]))
  }

  function FlatRun<D>(ops: Ops<D>, flats: map<nat, Flat<D>>, events: seq<Event<D>>): map<nat, Flat<D>>
    decreases |events|
  {
    if events == [] then flats else FlatRun(ops, FlatNext(ops, flats, events[0]), events[1..])
  }

  /** Over every run of creating, editing, finishing and dropping, with any number of edits open at
      once, every held edit and snapshot shows exactly its own flat map of summed deltas. */
  lemma {:induction false} EveryRunShowsFlatMaps<D>(ops: Ops<D>, s: State<D>, flats: map<nat, Flat<D>>, events: seq<Event<D>>)
    requires Valid(ops, s.store) && Shows(ops, s.store, flats) && CanRun(ops, s, events)
    ensures Valid(ops, Run(ops, s, events).store)
    ensures Shows(ops, Run(ops, s, events).store, FlatRun(ops, flats, events))
    decreases |events|
  {
    if events != [] {
      StepShows(ops, s, flats, events[0]);
      EveryRunShowsFlatMaps(ops, Next(ops, s, events[0]), FlatNext(ops, flats, events[0]), events[1..]);
    }
  }

  /** A flat map changes only by deltas added through its own reference. */
  predicate Touches<D>(e: Event<D>, r: nat) {
    match e
    case AddDelta(r', _, _) => r' == r
    case Drop(r') => r' == r
    case Empty(r') => r' == r
    case NewEdit(_, r') => r' == r
    case Finish(_) => false
  }

  lemma {:induction false} UntouchedFlat<D>(ops: Ops<D>, flats: map<nat, Flat<D>>, events: seq<Event<D>>, r: nat)
    requires r in flats && forall e | e in events :: !Touches(e, r)
    ensures r in FlatRun(ops, flats, events) && FlatRun(ops, flats, events)[r] == flats[r]
    decreases |events|
  {
    if events != [] {
      assert events[0] in events;
      UntouchedFlat(ops, FlatNext(ops, flats, events[0]), events[1..], r);
    }
  }

  /** A run never adds to, replaces or drops what is not touched, so a snapshot once handed out shows
      the same delta for every node as long as it is held, whatever later edits do. */
  lemma SnapshotsNeverChange<D>(ops: Ops<D>, s: State<D>, flats: map<nat, Flat<D>>, events: seq<Event<D>>, r: nat, node: nat)
    requires Valid(ops, s.store) && Shows(ops, s.store, flats) && CanRun(ops, s, events)
    requires r in s.snapshots && r in s.store.roots && forall e | e in events :: e != Drop(r)
    ensures RootOk(s.store, r) && RootOk(Run(ops, s, events).store, r)
    ensures Get(ops, Run(ops, s, events).store, r, node) == Get(ops, s.store, r, node)
  {
    SnapshotUntouched(ops, s, events, r);
    UntouchedFlat(ops, flats, events, r);
    EveryRunShowsFlatMaps(ops, s, flats, events);
    assert ShowsFlat(ops, s.store, r, flats[r]);
    assert ShowsFlat(ops, Run(ops, s, events).store, r, FlatRun(ops, flats, events)[r]);
  }

  lemma {:induction false} SnapshotUntouched<D>(ops: Ops<D>, s: State<D>, events: seq<Event<D>>, r: nat)
    requires Valid(ops, s.store) && CanRun(ops, s, events)
    requires r in s.snapshots && r in s.store.roots && forall e | e in events :: e != Drop(r)
    ensures forall e | e in events :: !Touches(e, r)
    decreases |events|
  {
    if events != [] {
      assert events[0] in events;
      StepIsValid(ops, s, events[0]);
      assert forall e | e in events[1..] :: e in events;
      SnapshotUntouched(ops, Next(ops, s, events[0]), events[1..], r);
      forall e | e in events
        ensures !Touches(e, r)
      {
        if e != events[0] {
          assert e in events[1..];
        }
      }
    }
  }

  // ---- Exact sums ----

  /** Addition is that of whole numbers: adding zero changes nothing, and only zero is zero. */
  ghost predicate Exact<D(!new)>(ops: Ops<D>) {
    && (forall d :: ops.isZero(d) <==> d == ops.zero)
    && (forall d :: ops.add(ops.zero, d) == d && ops.add(d, ops.zero) == d)
  }

  function Total<D>(ops: Ops<D>, total: D, deltas: seq<(nat, D)>, node: nat): D
    decreases |deltas|
  {
    if deltas == [] then total
    else Total(ops, if deltas[0].0 == node then ops.add(total, deltas[0].1) else total, deltas[1..], node)
  }

  function FlatSum<D>(ops: Ops<D>, m: Flat<D>, deltas: seq<(nat, D)>): Flat<D>
    decreases |deltas|
  {
    if deltas == [] then m else FlatSum(ops, FlatAdd(ops, m, deltas[0].0, deltas[0].1), deltas[1..])
  }

  /** When addition is exact, leaving zeros out loses nothing: a node's delta is the sum of all that
      was added to it. */
  lemma {:induction false} ExactSums<D(!new)>(ops: Ops<D>, m: Flat<D>, deltas: seq<(nat, D)>, node: nat)
    requires Exact(ops)
    ensures FlatGet(ops, FlatSum(ops, m, deltas), node) == Total(ops, FlatGet(ops, m, node), deltas, node)
    decreases |deltas|
  {
    if deltas != [] {
      SumIsFlat(ops, m, deltas[0].0, deltas[0].1, node);
      ExactSums(ops, FlatAdd(ops, m, deltas[0].0, deltas[0].1), deltas[1..], node);
    }
  }
}
