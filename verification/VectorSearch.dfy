/** Approximate nearest-neighbour search over a built index: greedy descent through the upper
    levels, then a beam search on the base level, plain or restricted to a scope. */
module VectorSearch {
  import opened Distances
  import opened Beams

  /** A loaded point: its node id and its neighbour list at each of its levels. */
  datatype Point = Point(id: nat, levels: seq<seq<nat>>)

  /** The header fields a search uses, beside the cached points. */
  datatype Index = Index(pointCount: nat, entry: nat, maxLevel: nat, points: seq<Point>)

  /** A search ends with ranked points, an error for a corrupt file, or an out-of-range index. */
  datatype Outcome = Hits(points: seq<nat>) | Corrupt | OutOfBounds

  datatype Descent = At(point: nat) | Lost

  function LinksAt(ix: Index, level: nat): Links {
    (p: nat) => if p < |ix.points| && level < |ix.points[p].levels| then ix.points[p].levels[level] else []
  }

  /** Every stored link and the entry point name existing points. */
  ghost predicate Sound(ix: Index) {
    && |ix.points| == ix.pointCount
    && ix.entry < ix.pointCount
    && forall p: nat, level: nat, n | n in LinksAt(ix, level)(p) :: n < ix.pointCount
  }

  // ---- Greedy descent ----

  /** Moves to each neighbour in turn that is strictly closer than the best so far. */
  function GreedyBest(d: nat -> Dist, list: seq<nat>, best: nat): nat
    decreases |list|
  {
    if list == [] then best
    else GreedyBest(d, list[1..], if Closer(d(list[0]), d(best)) then list[0] else best)
  }

  /** The pass ends on a closest point among the starting point and the list. */
  lemma {:induction false} GreedyBestIsClosest(d: nat -> Dist, list: seq<nat>, best: nat)
    ensures var r := GreedyBest(d, list, best);
            && (r == best || (r in list && Closer(d(r), d(best))))
            && !Closer(d(best), d(r))
            && forall n | n in list :: !Closer(d(n), d(r))
    decreases |list|
  {
    if list != [] {
      var next := if Closer(d(list[0]), d(best)) then list[0] else best;
      GreedyBestIsClosest(d, list[1..], next);
      assert list == [list[0]] + list[1..];
    }
  }

  method GreedyPass(ix: Index, d: nat -> Dist, level: nat, from: nat) returns (o: Descent)
    ensures o.At? ==> o.point == GreedyBest(d, LinksAt(ix, level)(from), from)
    ensures o.At? <==> forall n | n in LinksAt(ix, level)(from) :: n < ix.pointCount
  {
    var list := LinksAt(ix, level)(from);
    var best: nat := from;
    assert list[0..] == list;
    for i := 0 to |list|
      invariant GreedyBest(d, list[i..], best) == GreedyBest(d, list, from)
      invariant forall k | 0 <= k < i :: list[k] < ix.pointCount
    {
      assert list[i..][1..] == list[i + 1..];
      if list[i] >= ix.pointCount {
        assert list[i] in LinksAt(ix, level)(from);
        return Lost;
      }
      if Closer(d(list[i]), d(best)) {
        best := list[i];
      }
    }
    return At(best);
  }

  ghost function CloserCount(n: nat, d: nat -> Dist, p: nat): nat {
    |set q: nat | q < n && Closer(d(q), d(p))|
  }

  lemma CloserCountDrops(n: nat, d: nat -> Dist, p: nat, q: nat)
    requires q < n && Closer(d(q), d(p))
    ensures CloserCount(n, d, q) < CloserCount(n, d, p)
  {
    var near := set r: nat | r < n && Closer(d(r), d(q));
    var far := set r: nat | r < n && Closer(d(r), d(p));
    assert near <= far && q in far && q !in near;
    assert far == near + (far - near);
    assert |far - near| > 0;
  }

  /** No link of the point on this level leads strictly closer. */
  ghost predicate LocallyNearest(ix: Index, d: nat -> Dist, level: nat, p: nat) {
    forall n | n in LinksAt(ix, level)(p) :: !Closer(d(n), d(p))
  }

  /** The descent never moves away from the query and leaves each level only at a point none of
      whose links there is strictly closer. It fails only on a link or entry out of range. */
  method Descend(ix: Index, d: nat -> Dist) returns (o: Descent)
    requires |ix.points| == ix.pointCount
    ensures Sound(ix) ==> o.At?
    ensures o.At? ==> ix.entry < ix.pointCount && o.point < ix.pointCount
    ensures o.At? ==> !Closer(d(ix.entry), d(o.point))
    ensures o.At? && ix.maxLevel >= 1 ==> LocallyNearest(ix, d, 1, o.point)
    ensures ix.entry < ix.pointCount && ix.maxLevel == 0 ==> o == At(ix.entry)
  {
    if ix.entry >= ix.pointCount {
      return Lost;
    }
    var current: nat := ix.entry;
    var level: nat := ix.maxLevel;
    while level >= 1
      invariant current < ix.pointCount
      invariant level <= ix.maxLevel && (ix.maxLevel == 0 ==> current == ix.entry)
      invariant !Closer(d(ix.entry), d(current))
      invariant level == 0 && ix.maxLevel >= 1 ==> LocallyNearest(ix, d, 1, current)
      decreases level
    {
      var improved := true;
      while improved
        invariant current < ix.pointCount
        invariant !Closer(d(ix.entry), d(current))
        invariant !improved ==> LocallyNearest(ix, d, level, current)
        decreases improved, CloserCount(ix.pointCount, d, current)
      {
        var pass := GreedyPass(ix, d, level, current);
        if pass.Lost? {
          return Lost;
        }
        GreedyBestIsClosest(d, LinksAt(ix, level)(current), current);
        improved := pass.point != current;
        if improved {
          CloserCountDrops(ix.pointCount, d, current, pass.point);
        }
        current := pass.point;
      }
      level := level - 1;
    }
    return At(current);
  }

  // ---- Links that name no point ----

  /** The bits of the visited bitmap: one for each point, rounded up to whole 64-bit words. */
  function BitmapBits(pointCount: nat): nat {
    64 * ((pointCount + 63) / 64)
  }

  /** Meeting one link in the scoped search, which tests the bitmap before it checks the range. */
  function RangeCheck(pointCount: nat, p: nat): (o: Outcome)
    ensures o.Hits? <==> p < pointCount
    ensures o.Hits? ==> o == Hits([])
    ensures o.OutOfBounds? <==> BitmapBits(pointCount) <= p
  {
    if p / 64 >= (pointCount + 63) / 64 then OutOfBounds
    else if p >= pointCount then Corrupt
    else Hits([])
  }

  /** Meeting a list of links in order. */
  function MeetAll(pointCount: nat, list: seq<nat>): (o: Outcome)
    ensures o.Hits? ==> o == Hits([])
  {
    if list == [] then Hits([])
    else
      var last := |list| - 1;
      var before := MeetAll(pointCount, list[..last]);
      if before.Hits? then RangeCheck(pointCount, list[last]) else before
  }

  ghost predicate AllInRange(pointCount: nat, list: seq<nat>) {
    forall k | 0 <= k < |list| :: list[k] < pointCount
  }

  lemma {:induction false} MeetAllInRange(pointCount: nat, list: seq<nat>)
    ensures MeetAll(pointCount, list).Hits? <==> AllInRange(pointCount, list)
    decreases |list|
  {
    if list != [] {
      var last := |list| - 1;
      MeetAllInRange(pointCount, list[..last]);
      assert forall k | 0 <= k < last :: list[..last][k] == list[k];
    }
  }

  ghost predicate FirstBad(pointCount: nat, list: seq<nat>, i: nat) {
    i < |list| && list[i] >= pointCount && AllInRange(pointCount, list[..i])
  }

  /** The first link that names no point decides. */
  lemma {:induction false} FirstBadDecides(pointCount: nat, list: seq<nat>, i: nat)
    requires FirstBad(pointCount, list, i)
    ensures MeetAll(pointCount, list) == RangeCheck(pointCount, list[i])
    ensures MeetAll(pointCount, list) == OutOfBounds <==> BitmapBits(pointCount) <= list[i]
    decreases |list|
  {
    var last := |list| - 1;
    if i < last {
      assert list[..last][..i] == list[..i];
      FirstBadDecides(pointCount, list[..last], i);
    } else {
      MeetAllInRange(pointCount, list[..last]);
    }
  }

  lemma MeetOneMore(pointCount: nat, list: seq<nat>, i: nat)
    requires i < |list|
    ensures MeetAll(pointCount, list[..i + 1]) ==
            var before := MeetAll(pointCount, list[..i]);
            if before.Hits? then RangeCheck(pointCount, list[i]) else before
  {
    assert list[..i + 1][..i] == list[..i];
  }

  lemma {:induction false} MeetAppend(pointCount: nat, a: seq<nat>, b: seq<nat>)
    ensures MeetAll(pointCount, a + b) ==
            if MeetAll(pointCount, a).Hits? then MeetAll(pointCount, b) else MeetAll(pointCount, a)
    decreases |b|
  {
    if b == [] {
      assert a + b == a;
    } else {
      var last := |b| - 1;
      MeetAppend(pointCount, a, b[..last]);
      assert (a + b)[..|a + b| - 1] == a + b[..last];
    }
  }

  /** A failing prefix fails the whole list alike. */
  lemma MeetPrefix(pointCount: nat, list: seq<nat>, i: nat)
    requires i <= |list| && !MeetAll(pointCount, list[..i]).Hits?
    ensures MeetAll(pointCount, list) == MeetAll(pointCount, list[..i])
  {
    assert list == list[..i] + list[i..];
    MeetAppend(pointCount, list[..i], list[i..]);
  }

  /** The links met while a candidate with these links is expanded: each of them, and after one to
      a point out of scope seen for the first time that point's own. */
  ghost function LinksMet(d: nat -> Dist, ef: nat, links: Links, inScope: Scope, b: Beam, list: seq<nat>): seq<nat>
    requires ef >= 1
  {
    if list == [] then []
    else
      var last := |list| - 1;
      LinksMet(d, ef, links, inScope, b, list[..last])
      + LinksMetAt(links, inScope, VisitTwoHops(d, ef, links, inScope, b, list[..last]), list[last])
  }

  ghost function LinksMetAt(links: Links, inScope: Scope, b: Beam, p: nat): seq<nat> {
    if p in b.visited || inScope(p) then [p] else [p] + links(p)
  }

  /** The outcome of expanding a candidate with these links: the links of a point out of scope seen
      for the first time are met right after the link to it. */
  ghost function Met(ix: Index, d: nat -> Dist, ef: nat, inScope: Scope, b: Beam, list: seq<nat>): Outcome
    requires ef >= 1
  {
    if list == [] then Hits([])
    else
      var last := |list| - 1;
      var before := Met(ix, d, ef, inScope, b, list[..last]);
      if !before.Hits? then before
      else MetAt(ix, inScope, VisitTwoHops(d, ef, LinksAt(ix, 0), inScope, b, list[..last]), list[last])
  }

  ghost function MetAt(ix: Index, inScope: Scope, b: Beam, p: nat): Outcome {
    if p >= ix.pointCount || p in b.visited || inScope(p) then RangeCheck(ix.pointCount, p)
    else MeetAll(ix.pointCount, LinksAt(ix, 0)(p))
  }

  /** It is that of the first bad one among all the links met. */
  lemma {:induction false} MetInOrder(ix: Index, d: nat -> Dist, ef: nat, inScope: Scope, b: Beam, list: seq<nat>)
    requires ef >= 1
    ensures Met(ix, d, ef, inScope, b, list) ==
            MeetAll(ix.pointCount, LinksMet(d, ef, LinksAt(ix, 0), inScope, b, list))
    decreases |list|
  {
    if list != [] {
      var last := |list| - 1;
      var links, n, p := LinksAt(ix, 0), ix.pointCount, list[last];
      MetInOrder(ix, d, ef, inScope, b, list[..last]);
      var before := VisitTwoHops(d, ef, links, inScope, b, list[..last]);
      MeetAppend(n, LinksMet(d, ef, links, inScope, b, list[..last]), LinksMetAt(links, inScope, before, p));
      MetAtInOrder(ix, inScope, before, p);
    }
  }

  lemma MetAtInOrder(ix: Index, inScope: Scope, b: Beam, p: nat)
    ensures MetAt(ix, inScope, b, p) == MeetAll(ix.pointCount, LinksMetAt(LinksAt(ix, 0), inScope, b, p))
  {
    assert MeetAll(ix.pointCount, [p]) == RangeCheck(ix.pointCount, p);
    MeetAppend(ix.pointCount, [p], LinksAt(ix, 0)(p));
  }

  lemma MetOneMore(ix: Index, d: nat -> Dist, ef: nat, inScope: Scope, b: Beam, list: seq<nat>, i: nat)
    requires ef >= 1 && i < |list|
    ensures var met := Met(ix, d, ef, inScope, b, list[..i]);
            Met(ix, d, ef, inScope, b, list[..i + 1]) ==
            if !met.Hits? then met
            else MetAt(ix, inScope, VisitTwoHops(d, ef, LinksAt(ix, 0), inScope, b, list[..i]), list[i])
  {
    assert list[..i + 1][..i] == list[..i];
  }

  lemma MetNext(ix: Index, d: nat -> Dist, ef: nat, inScope: Scope, b: Beam, list: seq<nat>, i: nat)
    requires ef >= 1 && i < |list|
    ensures var met := Met(ix, d, ef, inScope, b, list[..i + 1]);
            && (met.Hits? ==> Met(ix, d, ef, inScope, b, list[..i]).Hits? && list[i] < ix.pointCount)
            && (!met.Hits? ==>
                  || met == Met(ix, d, ef, inScope, b, list[..i])
                  || (list[i] >= ix.pointCount && met == RangeCheck(ix.pointCount, list[i])
                      && Met(ix, d, ef, inScope, b, list[..i]).Hits?)
                  || (list[i] < ix.pointCount && met == MeetAll(ix.pointCount, LinksAt(ix, 0)(list[i]))))
  {
    MetOneMore(ix, d, ef, inScope, b, list, i);
  }

  lemma TwoHopsOneMore(d: nat -> Dist, ef: nat, links: Links, inScope: Scope, b: Beam, list: seq<nat>, i: nat)
    requires ef >= 1 && i < |list|
    ensures var before := VisitTwoHops(d, ef, links, inScope, b, list[..i]);
            var after := Visit(d, ef, inScope, before, list[i]);
            VisitTwoHops(d, ef, links, inScope, b, list[..i + 1]) ==
            if list[i] in before.visited || inScope(list[i]) then after
            else VisitAll(d, ef, inScope, after, links(list[i]))
  {
    assert list[..i + 1][..i] == list[..i];
  }

  lemma {:induction false} MetPrefix(ix: Index, d: nat -> Dist, ef: nat, inScope: Scope, b: Beam,
                                     list: seq<nat>, i: nat)
    requires ef >= 1 && i <= |list| && !Met(ix, d, ef, inScope, b, list[..i]).Hits?
    ensures Met(ix, d, ef, inScope, b, list) == Met(ix, d, ef, inScope, b, list[..i])
    decreases |list| - i
  {
    if i == |list| {
      assert list[..i] == list;
    } else {
      MetOneMore(ix, d, ef, inScope, b, list, i);
      MetPrefix(ix, d, ef, inScope, b, list, i + 1);
    }
  }

  /** A search from the base meets the links of this point, and they end it so. */
  ghost predicate EndsAt(ix: Index, base: nat, v: nat, o: Outcome) {
    && v < ix.pointCount && Reachable(LinksAt(ix, 0), base, v)
    && MeetAll(ix.pointCount, LinksAt(ix, 0)(v)) == o
  }

  lemma MetEarlier(ix: Index, d: nat -> Dist, ef: nat, inScope: Scope, b: Beam, list: seq<nat>)
    requires ef >= 1 && Met(ix, d, ef, inScope, b, list).Hits?
    ensures AllInRange(ix.pointCount, list)
  {
    forall i | 0 <= i < |list|
      ensures list[i] < ix.pointCount
    {
      MetNext(ix, d, ef, inScope, b, list, i);
      if !Met(ix, d, ef, inScope, b, list[..i + 1]).Hits? {
        MetPrefix(ix, d, ef, inScope, b, list, i + 1);
      }
    }
  }

  lemma FailedHere(ix: Index, base: nat, c: nat, i: nat)
    requires c < ix.pointCount && Reachable(LinksAt(ix, 0), base, c)
    requires FirstBad(ix.pointCount, LinksAt(ix, 0)(c), i)
    ensures EndsAt(ix, base, c, RangeCheck(ix.pointCount, LinksAt(ix, 0)(c)[i]))
  {
    FirstBadDecides(ix.pointCount, LinksAt(ix, 0)(c), i);
  }

  lemma FailedNext(ix: Index, base: nat, c: nat, p: nat)
    requires c < ix.pointCount && Reachable(LinksAt(ix, 0), base, c)
    requires p in LinksAt(ix, 0)(c) && p < ix.pointCount
    ensures EndsAt(ix, base, p, MeetAll(ix.pointCount, LinksAt(ix, 0)(p)))
  {
    ReachableStep(LinksAt(ix, 0), base, c, p);
  }

  lemma {:induction false} LastTrue(f: nat -> bool, n: nat) returns (i: nat)
    requires f(0) && !f(n)
    ensures i < n && f(i) && !f(i + 1)
  {
    i := n - 1;
    if !f(i) {
      i := LastTrue(f, i);
    }
  }

  /** The position in a candidate's list at which its expansion fails. */
  lemma FailingPosition(ix: Index, d: nat -> Dist, ef: nat, inScope: Scope, b: Beam, list: seq<nat>) returns (i: nat)
    requires ef >= 1 && !Met(ix, d, ef, inScope, b, list).Hits?
    ensures i < |list| && Met(ix, d, ef, inScope, b, list[..i]).Hits?
    ensures Met(ix, d, ef, inScope, b, list[..i + 1]) == Met(ix, d, ef, inScope, b, list)
  {
    var succeeds := (k: nat) => k <= |list| && Met(ix, d, ef, inScope, b, list[..k]).Hits?;
    assert list[..|list|] == list;
    i := LastTrue(succeeds, |list|);
    MetPrefix(ix, d, ef, inScope, b, list, i + 1);
  }

  /** A failed expansion failed at the first bad link of the candidate or of one of its neighbours. */
  lemma FailedAt(ix: Index, d: nat -> Dist, ef: nat, inScope: Scope, base: nat, b: Beam, c: nat, o: Outcome)
    requires ef >= 1 && c < ix.pointCount && Reachable(LinksAt(ix, 0), base, c)
    requires Met(ix, d, ef, inScope, b, LinksAt(ix, 0)(c)) == o && !o.Hits?
    ensures exists v :: EndsAt(ix, base, v, o)
  {
    var list := LinksAt(ix, 0)(c);
    var i := FailingPosition(ix, d, ef, inScope, b, list);
    MetNext(ix, d, ef, inScope, b, list, i);
    if list[i] >= ix.pointCount {
      MetEarlier(ix, d, ef, inScope, b, list[..i]);
      FailedHere(ix, base, c, i);
    } else {
      FailedNext(ix, base, c, list[i]);
    }
  }

  // ---- Base-level beam search ----

  ghost predicate Consistent(ix: Index, d: nat -> Dist, ef: nat, inScope: Scope, base: nat, b: Beam,
                             expanding: set<nat>)
  {
    && KeepsBest(d, ef, inScope, b)
    && Frontier(LinksAt(ix, 0), inScope, b, expanding)
    && base in b.visited
    && (forall v | v in b.visited :: v < ix.pointCount && Reachable(LinksAt(ix, 0), base, v))
  }

  lemma BadListIsUnsound(ix: Index, p: nat)
    requires !AllInRange(ix.pointCount, LinksAt(ix, 0)(p))
    ensures !Sound(ix)
  {
    var list := LinksAt(ix, 0)(p);
    var k :| 0 <= k < |list| && list[k] >= ix.pointCount;
    assert list[k] in LinksAt(ix, 0)(p);
  }

  lemma VisitConsistent(ix: Index, d: nat -> Dist, ef: nat, inScope: Scope, base: nat, b: Beam,
                        expanding: set<nat>, from: nat, p: nat)
    requires ef >= 1 && Consistent(ix, d, ef, inScope, base, b, expanding)
    requires from in b.visited && p in LinksAt(ix, 0)(from) && p < ix.pointCount
    ensures Consistent(ix, d, ef, inScope, base, Visit(d, ef, inScope, b, p), expanding)
    ensures Work(ix.pointCount, Visit(d, ef, inScope, b, p)) <= Work(ix.pointCount, b)
  {
    VisitKeepsBest(d, ef, inScope, b, p);
    VisitKeepsFrontier(d, ef, LinksAt(ix, 0), inScope, b, p, expanding);
    ReachableStep(LinksAt(ix, 0), base, from, p);
    VisitWork(d, ef, inScope, ix.pointCount, b, p);
  }

  lemma StartConsistent(ix: Index, d: nat -> Dist, ef: nat, inScope: Scope, base: nat)
    requires ef >= 1 && base < ix.pointCount
    ensures Consistent(ix, d, ef, inScope, base, Start(base, inScope), {})
  {
    ReachableSelf(LinksAt(ix, 0), base);
  }

  /** Taking a candidate off the queue and marking it as being expanded. */
  lemma PopConsistent(ix: Index, d: nat -> Dist, ef: nat, inScope: Scope, base: nat, b: Beam, c: nat)
    requires Consistent(ix, d, ef, inScope, base, b, {}) && c in b.candidates
    ensures Consistent(ix, d, ef, inScope, base, b.(candidates := b.candidates - {c}), {c})
    ensures Work(ix.pointCount, b.(candidates := b.candidates - {c})) < Work(ix.pointCount, b)
  {
    var b' := b.(candidates := b.candidates - {c});
    forall v | v in b'.visited
      ensures v in b'.candidates || v in {c} || Expanded(LinksAt(ix, 0), b', v)
              || (inScope(v) && v !in b'.top)
    {
      assert Expanded(LinksAt(ix, 0), b, v) ==> Expanded(LinksAt(ix, 0), b', v);
    }
  }

  lemma DoneExpanding(ix: Index, d: nat -> Dist, ef: nat, inScope: Scope, base: nat, b: Beam, c: nat)
    requires Consistent(ix, d, ef, inScope, base, b, {c})
    requires forall n | n in LinksAt(ix, 0)(c) :: n in b.visited
    ensures Consistent(ix, d, ef, inScope, base, b, {})
  {
    assert Expanded(LinksAt(ix, 0), b, c);
  }

  ghost predicate Advances(ix: Index, d: nat -> Dist, ef: nat, inScope: Scope, base: nat, b: Beam,
                           expanding: set<nat>, b': Beam)
  {
    && Consistent(ix, d, ef, inScope, base, b', expanding)
    && b.visited <= b'.visited
    && |b.top| <= |b'.top|
    && Work(ix.pointCount, b') <= Work(ix.pointCount, b)
  }

  lemma AdvancesTransitive(ix: Index, d: nat -> Dist, ef: nat, inScope: Scope, base: nat, b: Beam,
                           expanding: set<nat>, mid: Beam, b': Beam)
    requires Advances(ix, d, ef, inScope, base, b, expanding, mid)
    requires Advances(ix, d, ef, inScope, base, mid, expanding, b')
    ensures Advances(ix, d, ef, inScope, base, b, expanding, b')
  {
  }

  lemma VisitAdvances(ix: Index, d: nat -> Dist, ef: nat, inScope: Scope, base: nat, b: Beam,
                      expanding: set<nat>, from: nat, p: nat)
    requires ef >= 1 && Consistent(ix, d, ef, inScope, base, b, expanding)
    requires from in b.visited && p in LinksAt(ix, 0)(from) && p < ix.pointCount
    ensures Advances(ix, d, ef, inScope, base, b, expanding, Visit(d, ef, inScope, b, p))
    ensures p in Visit(d, ef, inScope, b, p).visited
  {
    VisitKeepsBest(d, ef, inScope, b, p);
    VisitConsistent(ix, d, ef, inScope, base, b, expanding, from, p);
  }

  lemma {:induction false} VisitAllAdvances(ix: Index, d: nat -> Dist, ef: nat, inScope: Scope, base: nat,
                                            b: Beam, expanding: set<nat>, from: nat, list: seq<nat>)
    requires ef >= 1 && Consistent(ix, d, ef, inScope, base, b, expanding)
    requires from in b.visited
    requires forall n | n in list :: n in LinksAt(ix, 0)(from) && n < ix.pointCount
    ensures Advances(ix, d, ef, inScope, base, b, expanding, VisitAll(d, ef, inScope, b, list))
    decreases |list|
  {
    if list != [] {
      var last := |list| - 1;
      assert forall n | n in list[..last] :: n in list;
      VisitAllAdvances(ix, d, ef, inScope, base, b, expanding, from, list[..last]);
      assert list[last] in list;
      var mid := VisitAll(d, ef, inScope, b, list[..last]);
      VisitAdvances(ix, d, ef, inScope, base, mid, expanding, from, list[last]);
      AdvancesTransitive(ix, d, ef, inScope, base, b, expanding, mid, VisitAll(d, ef, inScope, b, list));
    }
  }

  lemma {:induction false} TwoHopsAdvance(ix: Index, d: nat -> Dist, ef: nat, inScope: Scope, base: nat,
                                          b: Beam, expanding: set<nat>, from: nat, list: seq<nat>)
    requires ef >= 1 && Consistent(ix, d, ef, inScope, base, b, expanding)
    requires from in b.visited && forall n | n in list :: n in LinksAt(ix, 0)(from)
    requires Met(ix, d, ef, inScope, b, list).Hits?
    ensures Advances(ix, d, ef, inScope, base, b, expanding, VisitTwoHops(d, ef, LinksAt(ix, 0), inScope, b, list))
    ensures forall n | n in list :: n in VisitTwoHops(d, ef, LinksAt(ix, 0), inScope, b, list).visited
    decreases |list|
  {
    if list != [] {
      var last := |list| - 1;
      var p := list[last];
      var links := LinksAt(ix, 0);
      var before := VisitTwoHops(d, ef, links, inScope, b, list[..last]);
      assert list[..last + 1] == list == list[..last] + [p];
      MetOneMore(ix, d, ef, inScope, b, list, last);
      MeetAllInRange(ix.pointCount, links(p));
      TwoHopsAdvance(ix, d, ef, inScope, base, b, expanding, from, list[..last]);
      TwoHopStep(ix, d, ef, inScope, base, before, expanding, from, p);
      TwoHopsOneMore(d, ef, links, inScope, b, list, last);
      AdvancesTransitive(ix, d, ef, inScope, base, b, expanding, before,
                         VisitTwoHops(d, ef, links, inScope, b, list));
    }
  }

  lemma TwoHopStep(ix: Index, d: nat -> Dist, ef: nat, inScope: Scope, base: nat, b: Beam,
                   expanding: set<nat>, from: nat, p: nat)
    requires ef >= 1 && Consistent(ix, d, ef, inScope, base, b, expanding)
    requires from in b.visited && p in LinksAt(ix, 0)(from) && p < ix.pointCount
    requires p in b.visited || inScope(p) || forall n | n in LinksAt(ix, 0)(p) :: n < ix.pointCount
    ensures var after := Visit(d, ef, inScope, b, p);
            var r := if p in b.visited || inScope(p) then after
                     else VisitAll(d, ef, inScope, after, LinksAt(ix, 0)(p));
            Advances(ix, d, ef, inScope, base, b, expanding, r) && p in r.visited
  {
    VisitAdvances(ix, d, ef, inScope, base, b, expanding, from, p);
    if p !in b.visited && !inScope(p) {
      var after := Visit(d, ef, inScope, b, p);
      VisitAllAdvances(ix, d, ef, inScope, base, after, expanding, p, LinksAt(ix, 0)(p));
      AdvancesTransitive(ix, d, ef, inScope, base, b, expanding, after,
                         VisitAll(d, ef, inScope, after, LinksAt(ix, 0)(p)));
    }
  }

  /** Visits every link of the popped candidate; a link out of range is an error. */
  method ExpandPlain(ix: Index, d: nat -> Dist, ef: nat, inScope: Scope, b0: Beam, c: nat)
    returns (b: Beam, ok: bool)
    requires ef >= 1
    ensures ok ==> b == VisitAll(d, ef, inScope, b0, LinksAt(ix, 0)(c))
    ensures ok <==> AllInRange(ix.pointCount, LinksAt(ix, 0)(c))
  {
    b := b0;
    var list := LinksAt(ix, 0)(c);
    for i := 0 to |list|
      invariant b == VisitAll(d, ef, inScope, b0, list[..i])
      invariant forall k | 0 <= k < i :: list[k] < ix.pointCount
    {
      VisitAllSnoc(d, ef, inScope, b0, list, i);
      if list[i] >= ix.pointCount {
        return b, false;
      }
      if list[i] !in b.visited {
        b := Visit(d, ef, inScope, b, list[i]);
      }
    }
    assert list[..|list|] == list;
    return b, true;
  }

  /** The second hop: visits the links of an out-of-scope point, up to the first that names no point. */
  method VisitSecondHop(ix: Index, d: nat -> Dist, ef: nat, inScope: Scope, b0: Beam, from: nat)
    returns (b: Beam, o: Outcome)
    requires ef >= 1
    ensures o == MeetAll(ix.pointCount, LinksAt(ix, 0)(from))
    ensures o.Hits? ==> b == VisitAll(d, ef, inScope, b0, LinksAt(ix, 0)(from))
    ensures !o.Hits? ==>
              exists i: nat :: FirstBad(ix.pointCount, LinksAt(ix, 0)(from), i)
                && o == RangeCheck(ix.pointCount, LinksAt(ix, 0)(from)[i])
  {
    b := b0;
    var list := LinksAt(ix, 0)(from);
    for i := 0 to |list|
      invariant b == VisitAll(d, ef, inScope, b0, list[..i])
      invariant MeetAll(ix.pointCount, list[..i]).Hits?
    {
      VisitAllSnoc(d, ef, inScope, b0, list, i);
      MeetOneMore(ix.pointCount, list, i);
      o := RangeCheck(ix.pointCount, list[i]);
      if !o.Hits? {
        MeetPrefix(ix.pointCount, list, i + 1);
        MeetAllInRange(ix.pointCount, list[..i]);
        assert FirstBad(ix.pointCount, list, i);
        return;
      }
      if list[i] !in b.visited {
        b := Visit(d, ef, inScope, b, list[i]);
      }
    }
    assert list[..|list|] == list;
    o := Hits([]);
  }

  /** Expands the popped candidate; a point out of scope met for the first time has its own links
      visited at once, so that the search can cross a region outside the scope. The first link that
      names no point, on either hop, ends the search. */
  method ExpandScoped(ix: Index, d: nat -> Dist, ef: nat, inScope: Scope, b0: Beam, c: nat)
    returns (b: Beam, o: Outcome)
    requires ef >= 1
    ensures o == Met(ix, d, ef, inScope, b0, LinksAt(ix, 0)(c))
    ensures o == MeetAll(ix.pointCount, LinksMet(d, ef, LinksAt(ix, 0), inScope, b0, LinksAt(ix, 0)(c)))
    ensures o.Hits? ==> b == VisitTwoHops(d, ef, LinksAt(ix, 0), inScope, b0, LinksAt(ix, 0)(c))
  {
    b := b0;
    var list := LinksAt(ix, 0)(c);
    MetInOrder(ix, d, ef, inScope, b0, list);
    for i := 0 to |list|
      invariant b == VisitTwoHops(d, ef, LinksAt(ix, 0), inScope, b0, list[..i])
      invariant Met(ix, d, ef, inScope, b0, list[..i]).Hits?
    {
      TwoHopsOneMore(d, ef, LinksAt(ix, 0), inScope, b0, list, i);
      MetOneMore(ix, d, ef, inScope, b0, list, i);
      o := RangeCheck(ix.pointCount, list[i]);
      if !o.Hits? {
        MetPrefix(ix, d, ef, inScope, b0, list, i + 1);
        return;
      }
      if list[i] !in b.visited {
        b := Visit(d, ef, inScope, b, list[i]);
        if !inScope(list[i]) {
          b, o := VisitSecondHop(ix, d, ef, inScope, b, list[i]);
          if !o.Hits? {
            MetPrefix(ix, d, ef, inScope, b0, list, i + 1);
            return;
          }
        }
      }
    }
    assert list[..|list|] == list;
    o := Hits([]);
  }

  /** What a successful expansion comes to. */
  lemma ExpandedConsistent(ix: Index, d: nat -> Dist, ef: nat, inScope: Scope, base: nat, popped: Beam, c: nat)
    requires ef >= 1 && Consistent(ix, d, ef, inScope, base, popped, {c}) && c in popped.visited
    requires Met(ix, d, ef, inScope, popped, LinksAt(ix, 0)(c)).Hits?
    ensures var b := VisitTwoHops(d, ef, LinksAt(ix, 0), inScope, popped, LinksAt(ix, 0)(c));
            Consistent(ix, d, ef, inScope, base, b, {}) && Work(ix.pointCount, b) <= Work(ix.pointCount, popped)
    ensures MeetAll(ix.pointCount, LinksAt(ix, 0)(c)).Hits?
  {
    var list := LinksAt(ix, 0)(c);
    TwoHopsAdvance(ix, d, ef, inScope, base, popped, {c}, c, list);
    DoneExpanding(ix, d, ef, inScope, base, VisitTwoHops(d, ef, LinksAt(ix, 0), inScope, popped, list), c);
    MetEarlier(ix, d, ef, inScope, popped, list);
    MeetAllInRange(ix.pointCount, list);
  }

  method BeamPlain(ix: Index, d: nat -> Dist, ef: nat, base: nat) returns (b: Beam, ok: bool)
    requires ef >= 1 && base < ix.pointCount
    ensures ok ==> Finished(d, ef, LinksAt(ix, 0), EVERYWHERE, base, b)
    ensures ok ==> forall v | v in b.visited :: v < ix.pointCount && Reachable(LinksAt(ix, 0), base, v)
    ensures ok ==> AllInRange(ix.pointCount, LinksAt(ix, 0)(base))
    ensures Sound(ix) ==> ok
  {
    b := Start(base, EVERYWHERE);
    StartConsistent(ix, d, ef, EVERYWHERE, base);
    while !StopsPlain(d, b)
      invariant Consistent(ix, d, ef, EVERYWHERE, base, b, {}) && b.top != {}
      invariant b == Start(base, EVERYWHERE) || AllInRange(ix.pointCount, LinksAt(ix, 0)(base))
      decreases Work(ix.pointCount, b)
    {
      WorkBound(ix.pointCount, b);
      var c := Nearest(d, b.candidates);
      PopConsistent(ix, d, ef, EVERYWHERE, base, b, c);
      var popped := b.(candidates := b.candidates - {c});
      b, ok := ExpandPlain(ix, d, ef, EVERYWHERE, popped, c);
      if !ok {
        BadListIsUnsound(ix, c);
        return;
      }
      VisitAllAdvances(ix, d, ef, EVERYWHERE, base, popped, {c}, c, LinksAt(ix, 0)(c));
      VisitAllVisits(d, ef, EVERYWHERE, popped, LinksAt(ix, 0)(c));
      DoneExpanding(ix, d, ef, EVERYWHERE, base, b, c);
    }
    ok := true;
    StoppingRulesAgree(d, ef, b);
    StopMeansFinished(d, ef, LinksAt(ix, 0), EVERYWHERE, base, b);
  }

  /** A search that fails does so at the first bad link of a point it can reach; one that succeeds
      has met the links of its base, and of every point it can reach when its beam never filled. */
  method BeamScoped(ix: Index, d: nat -> Dist, ef: nat, inScope: Scope, base: nat)
    returns (b: Beam, o: Outcome)
    requires ef >= 1 && base < ix.pointCount
    ensures o.Hits? ==> Finished(d, ef, LinksAt(ix, 0), inScope, base, b)
    ensures o.Hits? ==> forall v | v in b.visited :: v < ix.pointCount && Reachable(LinksAt(ix, 0), base, v)
    ensures o.Hits? ==> EndsAt(ix, base, base, Hits([]))
    ensures !o.Hits? ==> exists v :: EndsAt(ix, base, v, o)
  {
    b := Start(base, inScope);
    StartConsistent(ix, d, ef, inScope, base);
    while !StopsScoped(d, ef, b)
      invariant Consistent(ix, d, ef, inScope, base, b, {})
      invariant b == Start(base, inScope) || EndsAt(ix, base, base, Hits([]))
      decreases Work(ix.pointCount, b)
    {
      WorkBound(ix.pointCount, b);
      var c := Nearest(d, b.candidates);
      PopConsistent(ix, d, ef, inScope, base, b, c);
      var popped := b.(candidates := b.candidates - {c});
      b, o := ExpandScoped(ix, d, ef, inScope, popped, c);
      if !o.Hits? {
        FailedAt(ix, d, ef, inScope, base, popped, c, o);
        return;
      }
      ExpandedConsistent(ix, d, ef, inScope, base, popped, c);
    }
    o := Hits([]);
    StopMeansFinished(d, ef, LinksAt(ix, 0), inScope, base, b);
  }

  // ---- Ranking ----

  type Order = (nat, nat) -> bool

  ghost predicate TotalPreorder(le: Order) {
    && (forall p: nat, q: nat :: le(p, q) || le(q, p))
    && (forall p: nat, q: nat, r: nat :: le(p, q) && le(q, r) ==> le(p, r))
  }

  ghost predicate SortedBy(le: Order, s: seq<nat>) {
    forall i, j | 0 <= i < j < |s| :: le(s[i], s[j])
  }

  /** The first `limit` points of a set in an order. */
  ghost predicate IsTop(le: Order, from: set<nat>, limit: nat, hits: seq<nat>) {
    && |hits| == (if limit < |from| then limit else |from|)
    && NoDuplicates(hits) && SortedBy(le, hits)
    && (forall h | h in hits :: h in from)
    && (forall h, p | h in hits && p in from && p !in hits :: le(h, p))
  }

  method InsertBy(le: Order, sorted: seq<nat>, p: nat) returns (r: seq<nat>)
    requires TotalPreorder(le) && SortedBy(le, sorted)
    requires NoDuplicates(sorted) && p !in sorted
    ensures SortedBy(le, r) && NoDuplicates(r) && |r| == |sorted| + 1
    ensures forall q :: q in r <==> q in sorted || q == p
  {
    var i := 0;
    while i < |sorted| && le(sorted[i], p)
      invariant 0 <= i <= |sorted|
      invariant forall k | 0 <= k < i :: le(sorted[k], p)
    {
      i := i + 1;
    }
    r := sorted[..i] + [p] + sorted[i..];
    assert sorted == sorted[..i] + sorted[i..];
    forall a, b | 0 <= a < b < |r|
      ensures le(r[a], r[b])
    {
      if a == i {
        assert le(p, sorted[i]);
        assert b - 1 == i || le(sorted[i], sorted[b - 1]);
      }
    }
  }

  /** Sorts the kept points and cuts the list off at the limit. */
  method SortAndTruncate(le: Order, from: set<nat>, limit: nat) returns (hits: seq<nat>)
    requires TotalPreorder(le)
    ensures IsTop(le, from, limit, hits)
  {
    var rest := from;
    var sorted: seq<nat> := [];
    while rest != {}
      invariant SortedBy(le, sorted) && NoDuplicates(sorted)
      invariant rest <= from && |sorted| + |rest| == |from|
      invariant forall p: nat :: p in sorted <==> p in from && p !in rest
      decreases rest
    {
      var p: nat :| p in rest;
      sorted := InsertBy(le, sorted, p);
      rest := rest - {p};
    }
    hits := if limit < |sorted| then sorted[..limit] else sorted;
    forall h, p | h in hits && p in from && p !in hits
      ensures le(h, p)
    {
      var i :| 0 <= i < |hits| && hits[i] == h;
      assert p in sorted;
      var j :| 0 <= j < |sorted| && sorted[j] == p;
      assert i < j;
    }
  }

  /** Nearer first, ties by node id. */
  function ByDistance(ix: Index, d: nat -> Dist): Order {
    (p: nat, q: nat) => TotalLe(d(p), d(q)) && (d(p) == d(q) ==> IdOf(ix, p) <= IdOf(ix, q))
  }

  /** Higher score first, ties by node id. */
  function ByScore(ix: Index, score: nat -> Dist): Order {
    (p: nat, q: nat) =>
      TotalLe(score(q), score(p)) && (score(p) == score(q) ==> IdOf(ix, p) <= IdOf(ix, q))
  }

  lemma RankingOrders(ix: Index, d: nat -> Dist)
    ensures TotalPreorder(ByDistance(ix, d)) && TotalPreorder(ByScore(ix, d))
  {
    var near, high := ByDistance(ix, d), ByScore(ix, d);
    forall p: nat, q: nat
      ensures near(p, q) || near(q, p)
      ensures high(p, q) || high(q, p)
    {
      assert near(p, q) || TotalLe(d(q), d(p));
    }
    forall p: nat, q: nat, r: nat
      ensures near(p, q) && near(q, r) ==> near(p, r)
      ensures high(p, q) && high(q, r) ==> high(p, r)
    {
      TotalLeChain(d(p), d(q), d(r));
      TotalLeChain(d(r), d(q), d(p));
    }
  }

  lemma TotalLeChain(a: Dist, b: Dist, c: Dist)
    ensures TotalLe(a, b) && TotalLe(b, c) ==> TotalLe(a, c) && (a == c ==> b == a)
  {
  }

  function IdOf(ix: Index, p: nat): nat {
    if p < |ix.points| then ix.points[p].id else 0
  }

  function Min(a: nat, b: nat): nat { if a < b then a else b }
  function Max(a: nat, b: nat): nat { if a < b then b else a }

  /** The beam width a query runs with. */
  function EffectiveEf(pointCount: nat, efSearch: nat, limit: nat): nat {
    Min(Max(Max(efSearch, Min(limit, pointCount)), 1), pointCount)
  }

  function InScopePoints(ix: Index, inScope: Scope): set<nat> {
    set p | p in Below(|ix.points|) && inScope(p)
  }

  // ---- Whole queries ----

  /** A successful approximate query: a base point no farther than the entry and locally nearest
      on level 1, a finished beam from it that visited only points reachable from it, and the hits
      are the best of that beam. */
  ghost predicate Answers(ix: Index, d: nat -> Dist, ef: nat, limit: nat, inScope: Scope, hits: seq<nat>,
                          base: nat, b: Beam)
  {
    && ix.entry < ix.pointCount && base < ix.pointCount
    && !Closer(d(ix.entry), d(base))
    && (ix.maxLevel == 0 ==> base == ix.entry)
    && (ix.maxLevel >= 1 ==> LocallyNearest(ix, d, 1, base))
    && Finished(d, ef, LinksAt(ix, 0), inScope, base, b)
    && (forall v | v in b.visited :: v < ix.pointCount && Reachable(LinksAt(ix, 0), base, v))
    && IsTop(ByDistance(ix, d), b.top, limit, hits)
  }

  /** The plain query. */
  method Search(ix: Index, d: nat -> Dist, score: nat -> Dist, efSearch: nat, limit: nat)
    returns (o: Outcome, ghost base: nat, ghost b: Beam)
    ensures ix.pointCount == 0 ==> o == Hits([])
    ensures ix.pointCount != 0 && |ix.points| != ix.pointCount ==> o == Corrupt
    ensures Sound(ix) ==> o.Hits?
    ensures o != OutOfBounds
    ensures o.Hits? && ix.pointCount > 0 ==>
              var ef := EffectiveEf(ix.pointCount, efSearch, limit);
              if ix.pointCount <= ef then
                IsTop(ByScore(ix, score), Below(ix.pointCount), Min(limit, ix.pointCount), o.points)
              else
                && Answers(ix, d, ef, Min(limit, ix.pointCount), EVERYWHERE, o.points, base, b)
                && AllInRange(ix.pointCount, LinksAt(ix, 0)(base))
  {
    base, b := 0, Beam({}, {}, {});
    if ix.pointCount == 0 {
      return Hits([]), base, b;
    }
    if |ix.points| != ix.pointCount {
      return Corrupt, base, b;
    }
    var lim := Min(limit, ix.pointCount);
    var ef := EffectiveEf(ix.pointCount, efSearch, limit);
    if ix.pointCount <= ef {
      RankingOrders(ix, score);
      var hits := SortAndTruncate(ByScore(ix, score), Below(ix.pointCount), lim);
      return Hits(hits), base, b;
    }
    var start := Descend(ix, d);
    if start.Lost? {
      return Corrupt, base, b;
    }
    var beam, ok := BeamPlain(ix, d, ef, start.point);
    if !ok {
      return Corrupt, base, b;
    }
    RankingOrders(ix, d);
    var hits := SortAndTruncate(ByDistance(ix, d), beam.top, lim);
    return Hits(hits), start.point, beam;
  }

  /** What a scoped base-level search from the base comes to. It fails only at a bad link it can
      reach. When fewer points are in scope than the beam is wide it meets every link it can reach. */
  ghost predicate ScopedOutcome(ix: Index, ef: nat, inScope: Scope, base: nat, o: Outcome) {
    && base < ix.pointCount
    && (!o.Hits? ==> exists v :: EndsAt(ix, base, v, o))
    && (o.Hits? ==> AllInRange(ix.pointCount, LinksAt(ix, 0)(base)))
    && (o.Hits? && |InScopePoints(ix, inScope)| < ef ==>
          forall v | Reachable(LinksAt(ix, 0), base, v) :: EndsAt(ix, base, v, Hits([])))
  }

  /** A check a caller can make: every base-level link lies within the bitmap's whole words. */
  ghost predicate WithinBitmap(ix: Index) {
    forall p: nat, n | n in LinksAt(ix, 0)(p) :: n < BitmapBits(ix.pointCount)
  }

  /** Within the bitmap bad links are reported. */
  lemma WithinBitmapIsReported(ix: Index, base: nat, v: nat, o: Outcome)
    requires WithinBitmap(ix) && EndsAt(ix, base, v, o)
    ensures o != OutOfBounds
  {
    var list := LinksAt(ix, 0)(v);
    assert forall k | 0 <= k < |list| :: list[k] in LinksAt(ix, 0)(v);
    WithinWords(ix.pointCount, list);
  }

  lemma {:induction false} WithinWords(pointCount: nat, list: seq<nat>)
    requires forall k | 0 <= k < |list| :: list[k] < BitmapBits(pointCount)
    ensures MeetAll(pointCount, list) != OutOfBounds
    decreases |list|
  {
    if list != [] {
      WithinWords(pointCount, list[..|list| - 1]);
    }
  }

  lemma AtMostInScope(ix: Index, inScope: Scope, top: set<nat>)
    requires forall t | t in top :: inScope(t) && t < |ix.points|
    ensures |top| <= |InScopePoints(ix, inScope)|
  {
    var all := InScopePoints(ix, inScope);
    assert top <= all;
    assert all == top + (all - top);
  }

  lemma MetEverything(ix: Index, d: nat -> Dist, ef: nat, inScope: Scope, base: nat, b: Beam, v: nat)
    requires Finished(d, ef, LinksAt(ix, 0), inScope, base, b) && |b.top| < ef
    requires forall v | v in b.visited :: v < ix.pointCount
    requires Reachable(LinksAt(ix, 0), base, v)
    ensures EndsAt(ix, base, v, Hits([]))
  {
    VisitedWhenNotFull(d, ef, LinksAt(ix, 0), inScope, base, b, v);
    var list := LinksAt(ix, 0)(v);
    assert Expanded(LinksAt(ix, 0), b, v);
    assert forall k | 0 <= k < |list| :: list[k] in list;
    MeetAllInRange(ix.pointCount, list);
  }

  /** The query restricted to a scope. */
  method SearchScoped(ix: Index, d: nat -> Dist, score: nat -> Dist, efSearch: nat, limit: nat,
                      inScope: Scope)
    returns (o: Outcome, ghost start: Descent, ghost b: Beam)
    ensures ix.pointCount == 0 ==> o == Hits([])
    ensures ix.pointCount != 0 && |ix.points| != ix.pointCount ==> o == Corrupt
    ensures Sound(ix) ==> o.Hits?
    ensures WithinBitmap(ix) || (start.Lost? && !o.Hits?) ==> o != OutOfBounds
    ensures EffectiveEf(ix.pointCount, efSearch, limit) < ix.pointCount == |ix.points| ==>
              (ix.maxLevel == 0 && ix.entry < ix.pointCount ==> start == At(ix.entry))
    ensures start.At? ==>
              && |ix.points| == ix.pointCount
              && ScopedOutcome(ix, EffectiveEf(ix.pointCount, efSearch, limit), inScope, start.point, o)
    ensures o.Hits? && ix.pointCount > 0 ==>
              var ef := EffectiveEf(ix.pointCount, efSearch, limit);
              if ix.pointCount <= ef then
                IsTop(ByScore(ix, score), InScopePoints(ix, inScope), Min(limit, ix.pointCount), o.points)
              else
                start.At? && Answers(ix, d, ef, Min(limit, ix.pointCount), inScope, o.points, start.point, b)
  {
    start, b := Lost, Beam({}, {}, {});
    if ix.pointCount == 0 {
      return Hits([]), start, b;
    }
    if |ix.points| != ix.pointCount {
      return Corrupt, start, b;
    }
    var lim := Min(limit, ix.pointCount);
    var ef := EffectiveEf(ix.pointCount, efSearch, limit);
    if ix.pointCount <= ef {
      RankingOrders(ix, score);
      var hits := SortAndTruncate(ByScore(ix, score), InScopePoints(ix, inScope), lim);
      return Hits(hits), start, b;
    }
    var end := Descend(ix, d);
    if end.Lost? {
      return Corrupt, end, b;
    }
    start := end;
    var beam;
    beam, o := BeamScoped(ix, d, ef, inScope, end.point);
    b := beam;
    if o.Hits? {
      MeetAllInRange(ix.pointCount, LinksAt(ix, 0)(end.point));
      AtMostInScope(ix, inScope, beam.top);
      if |InScopePoints(ix, inScope)| < ef {
        forall v | Reachable(LinksAt(ix, 0), end.point, v)
          ensures EndsAt(ix, end.point, v, Hits([]))
        {
          MetEverything(ix, d, ef, inScope, end.point, beam, v);
        }
      }
      RankingOrders(ix, d);
      var hits := SortAndTruncate(ByDistance(ix, d), beam.top, lim);
      o := Hits(hits);
    } else {
      ghost var v :| EndsAt(ix, end.point, v, o);
      MeetAllInRange(ix.pointCount, LinksAt(ix, 0)(v));
      BadListIsUnsound(ix, v);
      if WithinBitmap(ix) {
        WithinBitmapIsReported(ix, end.point, v, o);
      }
    }
  }

  // ---- When a scoped search runs out of bounds ----

  /** With fewer points in scope than the beam is wide, a search answers exactly when no point it
      can reach has a bad link; and when no bad link it can reach is one that is reported, it runs
      out of bounds exactly when one of those points has a bad link at all. */
  lemma OutOfBoundsExactly(ix: Index, ef: nat, inScope: Scope, base: nat, o: Outcome)
    requires ScopedOutcome(ix, ef, inScope, base, o) && |InScopePoints(ix, inScope)| < ef
    ensures o.Hits? <==> forall v | Reachable(LinksAt(ix, 0), base, v) :: EndsAt(ix, base, v, Hits([]))
    ensures (forall v | Reachable(LinksAt(ix, 0), base, v) :: !EndsAt(ix, base, v, Corrupt)) ==>
              (o == OutOfBounds <==> exists v :: EndsAt(ix, base, v, OutOfBounds))
  {
    if !o.Hits? {
      var v :| EndsAt(ix, base, v, o);
      assert Reachable(LinksAt(ix, 0), base, v);
    }
  }

  /** The smallest failure: two points, of which the entry links to one far outside. */
  function FarLinkIndex(): Index {
    Index(2, 0, 0, [Point(10, [[128]]), Point(11, [[]])])
  }

  lemma FarLinkEnds(v: nat, o: Outcome)
    requires EndsAt(FarLinkIndex(), 0, v, o)
    ensures o == OutOfBounds
  {
    var links := LinksAt(FarLinkIndex(), 0);
    var path :| IsPath(links, path) && path[0] == 0 && path[|path| - 1] == v;
    assert links(0) == [128];
    ClosedContainsPath(links, {0, 128}, path);
    FirstBadDecides(2, [128], 0);
  }

  /** On one and the same corrupt file the plain search reports and the scoped search runs out of
      bounds, whatever the query and the scope. */
  method FarLinkSearches(d: nat -> Dist, score: nat -> Dist, inScope: Scope) returns (plain: Outcome, scoped: Outcome)
    ensures plain == Corrupt && scoped == OutOfBounds
  {
    var ix := FarLinkIndex();
    assert LinksAt(ix, 0)(0)[0] == 128;
    ghost var base, b, start, b';
    plain, base, b := Search(ix, d, score, 1, 1);
    scoped, start, b' := SearchScoped(ix, d, score, 1, 1, inScope);
    ghost var v :| EndsAt(ix, 0, v, scoped);
    FarLinkEnds(v, scoped);
  }

  // ---- What a scoped answer means ----

  /** Every hit is in scope; a beam that did not fill up makes the hits the best `limit` of all
      reachable points in scope; a full one leaves out only visited points in scope no closer than
      any hit. */
  lemma ScopedAnswer(ix: Index, d: nat -> Dist, ef: nat, limit: nat, inScope: Scope, hits: seq<nat>,
                     base: nat, b: Beam)
    requires Answers(ix, d, ef, limit, inScope, hits, base, b)
    ensures forall h | h in hits :: inScope(h) && Reachable(LinksAt(ix, 0), base, h)
    ensures |b.top| < ef ==>
              forall v: nat :: Reachable(LinksAt(ix, 0), base, v) && inScope(v) <==> v in b.top
    ensures |b.top| < ef ==>
              forall h, v: nat | h in hits && Reachable(LinksAt(ix, 0), base, v) && inScope(v) && v !in hits ::
                ByDistance(ix, d)(h, v)
    ensures forall h, v | h in hits && v in b.visited && inScope(v) && v !in hits :: !Closer(d(v), d(h))
  {
    if |b.top| < ef {
      forall v: nat
        ensures Reachable(LinksAt(ix, 0), base, v) && inScope(v) <==> v in b.top
      {
        if Reachable(LinksAt(ix, 0), base, v) && inScope(v) {
          CompleteWhenNotFull(d, ef, LinksAt(ix, 0), inScope, base, b, v);
        }
      }
    }
    forall h, v | h in hits && v in b.visited && inScope(v) && v !in hits
      ensures !Closer(d(v), d(h))
    {
      if v in b.top {
        assert ByDistance(ix, d)(h, v);
      } else {
        assert LeftOut(d, ef, b.top, v);
      }
    }
  }
}
