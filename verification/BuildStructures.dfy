/** The mutable structures behind the searches and the build: the visited marks reused between
    searches, the visited bitmap of a query, and a neighbour list updated under its lock. */
module BuildStructures {
  import opened Distances
  import opened Pruning
  import opened Beams
  import opened ParallelBuild

  const U32_SIZE := 0x1_0000_0000

  /** Marks of a search: a point is visited when its mark equals the current generation, so starting
      a new search costs one increment, except when the 32-bit generation wraps around. */
  class SearchMarks {
    const marks: array<nat>
    var generation: nat

    ghost predicate Valid()
      reads this, marks
    {
      generation < U32_SIZE && forall p | 0 <= p < marks.Length :: marks[p] <= generation
    }

    ghost function Visited(): set<nat>
      reads this, marks
    {
      set p: nat | p < marks.Length && marks[p] == generation
    }

    constructor (pointCount: nat)
      ensures Valid() && fresh(marks) && marks.Length == pointCount
    {
      marks := new nat[pointCount](_ => 0);
      generation := 0;
    }

    /** Forgets every visit of the previous search. */
    method Begin()
      requires Valid()
      modifies this, marks
      ensures Valid() && Visited() == {}
    {
      generation := (generation + 1) % U32_SIZE;
      if generation == 0 {
        for i := 0 to marks.Length
          invariant generation == 0
          invariant forall k | 0 <= k < i :: marks[k] == 0
          modifies marks
        {
          marks[i] := 0;
        }
        generation := 1;
      }
    }

    method Mark(p: nat) returns (first: bool)
      requires Valid() && p < marks.Length
      modifies marks
      ensures Valid()
      ensures first <==> p !in old(Visited())
      ensures Visited() == old(Visited()) + {p}
    {
      first := marks[p] != generation;
      marks[p] := generation;
    }
  }

  /** One bit per point, in 64-bit words. */
  class VisitedBitmap {
    const words: array<nat>
    const pointCount: nat

    ghost predicate Valid() {
      words.Length == (pointCount + 63) / 64
    }

    ghost function Members(): set<nat>
      requires Valid()
      reads words
    {
      set p: nat | p < pointCount && Bit(words[p / 64], p % 64)
    }

    constructor (count: nat)
      ensures Valid() && fresh(words) && pointCount == count && Members() == {}
    {
      pointCount := count;
      words := new nat[(count + 63) / 64](_ => 0);
      new;
      forall p: nat | p < count
        ensures !Bit(words[p / 64], p % 64)
      {
        ZeroHasNoBits(p % 64);
      }
    }

    method Contains(p: nat) returns (r: bool)
      requires Valid() && p < pointCount
      ensures r <==> p in Members()
    {
      r := Bit(words[p / 64], p % 64);
    }

    method Add(p: nat)
      requires Valid() && p < pointCount
      modifies words
      ensures Members() == old(Members()) + {p}
    {
      ghost var before := words[..];
      words[p / 64] := SetBit(words[p / 64], p % 64);
      forall q: nat | q < pointCount
        ensures Bit(words[q / 64], q % 64) <==> Bit(before[q / 64], q % 64) || q == p
      {
        if q / 64 == p / 64 {
          BitOfSetBit(before[p / 64], p % 64, q % 64);
        }
      }
    }
  }

  /** `word & (1 << i) != 0`, on the word's binary digits. */
  predicate Bit(word: nat, i: nat) {
    if i == 0 then word % 2 == 1 else Bit(word / 2, i - 1)
  }

  /** `word | (1 << i)`, on the word's binary digits. */
  function SetBit(word: nat, i: nat): nat {
    if i == 0 then word + 1 - word % 2 else 2 * SetBit(word / 2, i - 1) + word % 2
  }

  lemma ZeroHasNoBits(i: nat)
    ensures !Bit(0, i)
  {
  }

  lemma {:induction false} BitOfSetBit(word: nat, i: nat, j: nat)
    ensures Bit(SetBit(word, i), j) <==> Bit(word, j) || i == j
  {
    if i > 0 && j > 0 {
      BitOfSetBit(word / 2, i - 1, j - 1);
      assert SetBit(word, i) / 2 == SetBit(word / 2, i - 1);
    } else if i == 0 && j > 0 {
      assert SetBit(word, 0) / 2 == word / 2;
    }
  }

  /** A neighbour list while its write lock is held. */
  class NeighborList {
    var items: seq<nat>

    constructor ()
      ensures items == []
    {
      items := [];
    }

    /** Adds the points not yet in the list, then prunes it if it has grown too long. */
    method Link(c: Config, owner: nat, level: nat, more: seq<nat>)
      modifies this
      ensures items == Linked(c, owner, level, old(items), more)
    {
      assert more[0..] == more;
      for i := 0 to |more|
        invariant AppendMissing(items, more[i..]) == AppendMissing(old(items), more)
      {
        assert more[i..][1..] == more[i + 1..];
        if more[i] !in items {
          items := items + [more[i]];
        }
      }
      var cap := MaxNeighbors(c.m, level);
      if |items| > cap {
        items := PruneNeighbors(c.pair, owner, items, cap);
      }
    }
  }

  /** What the search has found in the list of a point: `views(k)` is what the lists are when it takes
      its k-th lock, whatever other workers did to them in between. */
  ghost function ListRead(views: nat -> Lists, level: nat, order: seq<nat>, p: nat): seq<nat>
    decreases |order|
  {
    if order == [] then []
    else
      var last := |order| - 1;
      if order[last] == p && (p, level) in views(last) then views(last)[(p, level)]
      else ListRead(views, level, order[..last], p)
  }

  ghost function AsRead(views: nat -> Lists, level: nat, order: seq<nat>): Links {
    (p: nat) => ListRead(views, level, order, p)
  }

  /** At every moment the lists of the level are there and name only points that have the level. */
  ghost predicate LevelOk(c: Config, views: nat -> Lists, level: nat) {
    forall k: nat ::
      && (forall p: nat | HasLevel(c, p, level) :: (p, level) in views(k))
      && (forall p: nat, x | (p, level) in views(k) && x in views(k)[(p, level)] :: HasLevel(c, x, level))
  }

  /** The layer search of one worker, while others may change any list between two of its reads. It
      reads each list at most once; the beam it ends with is finished with regard to the lists as they
      were when it read them, every kept point's among them; its points come out nearest first. */
  method SearchLayer(scratch: SearchMarks, c: Config, views: nat -> Lists, w: nat, entry: nat, level: nat)
    returns (selected: seq<nat>, ghost b: Beam, ghost order: seq<nat>)
    requires scratch.Valid() && scratch.marks.Length == |c.levels|
    requires HasLevel(c, entry, level) && LevelOk(c, views, level)
    modifies scratch, scratch.marks
    ensures scratch.Valid() && scratch.Visited() == b.visited
    ensures selected == Ranked(Metric(c, w), b.top)
    ensures NoDuplicates(order) && forall t | t in b.top :: t in order
    ensures Finished(Metric(c, w), Ef(c), AsRead(views, level, order), EVERYWHERE, entry, b)
  {
    var d, ef := Metric(c, w), Ef(c);
    scratch.Begin();
    var first := scratch.Mark(entry);
    var candidates: set<nat>, top: set<nat> := {entry}, {entry};
    b, order := Beam(scratch.Visited(), candidates, top), [];
    var count: nat := 0;
    while !StopsPlain(d, Beam({}, candidates, top))
      invariant scratch.Valid() && b == Beam(scratch.Visited(), candidates, top) && count == |order|
      invariant LayerInvariant(c, d, views, order, entry, level, b)
      decreases Work(|c.levels|, b)
    {
      WorkBoundMarks(scratch, b);
      candidates, top, b, order := ExpandNearest(scratch, c, d, views(count), level, entry, candidates, top, b, views, order);
      count := count + 1;
    }
    StoppingRulesAgree(d, ef, b);
    StopMeansFinished(d, ef, AsRead(views, level, order), EVERYWHERE, entry, b);
    KeptWereRead(c, d, views, order, entry, level, b);
    selected := Ranked(d, top);
  }

  ghost predicate LayerInvariant(c: Config, d: nat -> Dist, views: nat -> Lists, order: seq<nat>, entry: nat, level: nat,
                                 b: Beam)
  {
    && KeepsBest(d, Ef(c), EVERYWHERE, b) && Frontier(AsRead(views, level, order), EVERYWHERE, b, {})
    && entry in b.visited && b.top != {}
    && (forall v | v in b.visited :: HasLevel(c, v, level))
    && ReadOnce(b, order)
  }

  /** A point is read when it is taken off the queue, to which it never comes back. */
  ghost predicate ReadOnce(b: Beam, order: seq<nat>) {
    && NoDuplicates(order) && (forall r | r in order :: r in b.visited && r !in b.candidates)
    && forall t | t in b.top :: t in b.candidates || t in order
  }

  lemma KeptWereRead(c: Config, d: nat -> Dist, views: nat -> Lists, order: seq<nat>, entry: nat, level: nat, b: Beam)
    requires LayerInvariant(c, d, views, order, entry, level, b) && StopsPlain(d, b)
    ensures forall t | t in b.top :: t in order
  {
    forall t | t in b.top
      ensures t in order
    {
      assert t in b.candidates ==> RankLe(d, Nearest(d, b.candidates), t);
      assert RankLe(d, t, Farthest(d, b.top));
    }
  }

  /** Pops the nearest candidate and visits its links. */
  method ExpandNearest(scratch: SearchMarks, c: Config, d: nat -> Dist, lists: Lists, level: nat,
                       ghost entry: nat, candidates0: set<nat>, top0: set<nat>, ghost b0: Beam,
                       ghost views: nat -> Lists, ghost order0: seq<nat>)
    returns (candidates: set<nat>, top: set<nat>, ghost b: Beam, ghost order: seq<nat>)
    requires scratch.Valid() && scratch.marks.Length == |c.levels|
    requires b0 == Beam(scratch.Visited(), candidates0, top0) && !StopsPlain(d, b0)
    requires LayerInvariant(c, d, views, order0, entry, level, b0) && LevelOk(c, views, level)
    requires lists == views(|order0|)
    modifies scratch.marks
    ensures scratch.Valid() && b == Beam(scratch.Visited(), candidates, top)
    ensures LayerInvariant(c, d, views, order, entry, level, b) && |order| == |order0| + 1
    ensures Work(|c.levels|, b) < Work(|c.levels|, b0)
  {
    var near := Nearest(d, candidates0);
    ghost var popped := b0.(candidates := candidates0 - {near});
    assert HasLevel(c, near, level);
    var list := lists[(near, level)];
    forall x | x in list
      ensures HasLevel(c, x, level)
    {
    }
    candidates, top := ExpandMarked(scratch, d, Ef(c), list, candidates0 - {near}, top0, popped);
    b, order := Beam(scratch.Visited(), candidates, top), order0 + [near];
    LayerAdvances(c, d, views, order0, entry, level, b0, near);
  }

  lemma LayerAdvances(c: Config, d: nat -> Dist, views: nat -> Lists, order: seq<nat>, entry: nat, level: nat, b: Beam,
                      near: nat)
    requires LayerInvariant(c, d, views, order, entry, level, b) && near in b.candidates
    requires LevelOk(c, views, level) && (near, level) in views(|order|)
    ensures var list := views(|order|)[(near, level)];
            var r := VisitAll(d, Ef(c), EVERYWHERE, b.(candidates := b.candidates - {near}), list);
            && LayerInvariant(c, d, views, order + [near], entry, level, r)
            && Work(|c.levels|, r) < Work(|c.levels|, b)
  {
    var popped := b.(candidates := b.candidates - {near});
    var links, list := AsRead(views, level, order + [near]), views(|order|)[(near, level)];
    ReadsExtend(views, level, order, near);
    PopFrontier(AsRead(views, level, order), links, b, near);
    LayerStep(d, Ef(c), links, popped, near, |c.levels|);
    VisitAllVisits(d, Ef(c), EVERYWHERE, popped, list);
    StillReadOnce(d, Ef(c), b, order, near, list);
  }

  /** One more read adds that list and changes no other. */
  lemma ReadsExtend(views: nat -> Lists, level: nat, order: seq<nat>, near: nat)
    requires (near, level) in views(|order|)
    ensures AsRead(views, level, order + [near])(near) == views(|order|)[(near, level)]
    ensures forall p: nat | p != near :: AsRead(views, level, order + [near])(p) == AsRead(views, level, order)(p)
  {
    assert (order + [near])[..|order|] == order;
  }

  lemma StillReadOnce(d: nat -> Dist, ef: nat, b: Beam, order: seq<nat>, near: nat, list: seq<nat>)
    requires ef >= 1 && ReadOnce(b, order) && near in b.candidates && b.candidates <= b.visited
    ensures ReadOnce(VisitAll(d, ef, EVERYWHERE, b.(candidates := b.candidates - {near}), list), order + [near])
  {
    var popped := b.(candidates := b.candidates - {near});
    var more := order + [near];
    assert ReadOnce(popped, more) by {
      assert forall r | r in more :: r in order || r == near;
      assert forall r | r in order :: r in more;
      assert near in more;
    }
    VisitsReadOnce(d, ef, popped, more, list);
  }

  lemma {:induction false} VisitsReadOnce(d: nat -> Dist, ef: nat, b: Beam, order: seq<nat>, list: seq<nat>)
    requires ef >= 1 && ReadOnce(b, order)
    ensures ReadOnce(VisitAll(d, ef, EVERYWHERE, b, list), order)
    decreases |list|
  {
    if list != [] {
      VisitsReadOnce(d, ef, b, order, list[..|list| - 1]);
    }
  }

  /** Visits a list in order, marking points in place. */
  method ExpandMarked(scratch: SearchMarks, d: nat -> Dist, ef: nat, list: seq<nat>,
                      candidates0: set<nat>, top0: set<nat>, ghost b0: Beam)
    returns (candidates: set<nat>, top: set<nat>)
    requires ef >= 1 && scratch.Valid()
    requires b0 == Beam(scratch.Visited(), candidates0, top0)
    requires forall x | x in list :: x < scratch.marks.Length
    modifies scratch.marks
    ensures scratch.Valid()
    ensures Beam(scratch.Visited(), candidates, top) == VisitAll(d, ef, EVERYWHERE, b0, list)
  {
    candidates, top := candidates0, top0;
    assert list[..0] == [];
    for i := 0 to |list|
      invariant scratch.Valid()
      invariant Beam(scratch.Visited(), candidates, top) == VisitAll(d, ef, EVERYWHERE, b0, list[..i])
    {
      VisitAllSnoc(d, ef, EVERYWHERE, b0, list, i);
      assert list[i] in list;
      var first := scratch.Mark(list[i]);
      if first && Admits(d, ef, top, list[i]) {
        candidates := candidates + {list[i]};
        top := Trim(d, ef, top + {list[i]});
      }
    }
    assert list[..|list|] == list;
  }

  lemma WorkBoundMarks(scratch: SearchMarks, b: Beam)
    requires b.visited == scratch.Visited()
    ensures Work(scratch.marks.Length, b) >= 0
  {
    WorkBound(scratch.marks.Length, b);
  }

  lemma PopFrontier(links: Links, links': Links, b: Beam, near: nat)
    requires Frontier(links, EVERYWHERE, b, {}) && near in b.candidates
    requires forall p: nat | p != near :: links'(p) == links(p)
    ensures Frontier(links', EVERYWHERE, b.(candidates := b.candidates - {near}), {near})
  {
    var popped := b.(candidates := b.candidates - {near});
    forall v | v in popped.visited
      ensures v in popped.candidates || v in {near} || Expanded(links', popped, v) || v !in popped.top
    {
      assert v != near && Expanded(links, b, v) ==> Expanded(links', popped, v);
    }
  }

  lemma LayerStep(d: nat -> Dist, ef: nat, links: Links, popped: Beam, near: nat, n: nat)
    requires ef >= 1 && KeepsBest(d, ef, EVERYWHERE, popped) && Frontier(links, EVERYWHERE, popped, {near})
    ensures var b := VisitAll(d, ef, EVERYWHERE, popped, links(near));
            && KeepsBest(d, ef, EVERYWHERE, b) && Frontier(links, EVERYWHERE, b, {})
            && |popped.top| <= |b.top|
            && Work(n, b) <= Work(n, popped)
  {
    VisitAllKeeps(d, ef, links, popped, near, links(near), n);
    VisitAllVisits(d, ef, EVERYWHERE, popped, links(near));
    var b := VisitAll(d, ef, EVERYWHERE, popped, links(near));
    assert Expanded(links, b, near);
  }

  lemma {:induction false} VisitAllKeeps(d: nat -> Dist, ef: nat, links: Links, b: Beam, near: nat, list: seq<nat>,
                                         n: nat)
    requires ef >= 1 && KeepsBest(d, ef, EVERYWHERE, b) && Frontier(links, EVERYWHERE, b, {near})
    ensures var r := VisitAll(d, ef, EVERYWHERE, b, list);
            && KeepsBest(d, ef, EVERYWHERE, r) && Frontier(links, EVERYWHERE, r, {near})
            && |b.top| <= |r.top|
            && Work(n, r) <= Work(n, b)
  {
    if list != [] {
      var last := |list| - 1;
      VisitAllKeeps(d, ef, links, b, near, list[..last], n);
      var mid := VisitAll(d, ef, EVERYWHERE, b, list[..last]);
      VisitKeepsBest(d, ef, EVERYWHERE, mid, list[last]);
      VisitKeepsFrontier(d, ef, links, EVERYWHERE, mid, list[last], {near});
      VisitWork(d, ef, EVERYWHERE, n, mid, list[last]);
    }
  }
}
