/** One step of a beam search: visiting a point, and what every step keeps. */
module Beams {
  import opened Distances

  /** Points seen so far, points waiting to be expanded, and the best points kept. The two heaps
      hold each point at most once, because only unvisited points are pushed. */
  datatype Beam = Beam(visited: set<nat>, candidates: set<nat>, top: set<nat>)

  type Scope = nat -> bool

  const EVERYWHERE: Scope := (p: nat) => true

  function Start(entry: nat, inScope: Scope): Beam {
    Beam({entry}, {entry}, if inScope(entry) then {entry} else {})
  }

  /** Drops the farthest kept point once there are more than `ef`. */
  function Trim(d: nat -> Dist, ef: nat, top: set<nat>): set<nat> {
    if |top| > ef then top - {Farthest(d, top)} else top
  }

  /** Is there room for a point at this distance among the best `ef`? */
  predicate Admits(d: nat -> Dist, ef: nat, top: set<nat>, p: nat)
    requires ef >= 1
  {
    |top| < ef || Closer(d(p), d(Farthest(d, top)))
  }

  /** Marks a point visited; a point out of scope is only queued, a point in scope is queued and
      kept when the beam has room for it. */
  function Visit(d: nat -> Dist, ef: nat, inScope: Scope, b: Beam, p: nat): Beam
    requires ef >= 1
  {
    if p in b.visited then b
    else if !inScope(p) then Beam(b.visited + {p}, b.candidates + {p}, b.top)
    else if Admits(d, ef, b.top, p) then
      Beam(b.visited + {p}, b.candidates + {p}, Trim(d, ef, b.top + {p}))
    else b.(visited := b.visited + {p})
  }

  /** Visits the points of a list in order. */
  function VisitAll(d: nat -> Dist, ef: nat, inScope: Scope, b: Beam, list: seq<nat>): Beam
    requires ef >= 1
  {
    if list == [] then b
    else
      var last := |list| - 1;
      Visit(d, ef, inScope, VisitAll(d, ef, inScope, b, list[..last]), list[last])
  }

  lemma VisitAllSnoc(d: nat -> Dist, ef: nat, inScope: Scope, b: Beam, list: seq<nat>, i: nat)
    requires ef >= 1 && i < |list|
    ensures VisitAll(d, ef, inScope, b, list[..i + 1]) ==
            Visit(d, ef, inScope, VisitAll(d, ef, inScope, b, list[..i]), list[i])
  {
    assert list[..i + 1][..i] == list[..i];
  }

  lemma {:induction false} VisitAllVisits(d: nat -> Dist, ef: nat, inScope: Scope, b: Beam, list: seq<nat>)
    requires ef >= 1
    ensures b.visited <= VisitAll(d, ef, inScope, b, list).visited
    ensures forall n | n in list :: n in VisitAll(d, ef, inScope, b, list).visited
    ensures forall n | n in VisitAll(d, ef, inScope, b, list).visited :: n in b.visited || n in list
  {
    if list != [] {
      var last := |list| - 1;
      VisitAllVisits(d, ef, inScope, b, list[..last]);
      assert list == list[..last] + [list[last]];
    }
  }

  /** Visits the points of a list in order; the links of a point met outside the scope are visited
      right after it. */
  function VisitTwoHops(d: nat -> Dist, ef: nat, links: Links, inScope: Scope, b: Beam, list: seq<nat>): Beam
    requires ef >= 1
  {
    if list == [] then b
    else
      var last := |list| - 1;
      var before := VisitTwoHops(d, ef, links, inScope, b, list[..last]);
      var p := list[last];
      var after := Visit(d, ef, inScope, before, p);
      if p in before.visited || inScope(p) then after
      else VisitAll(d, ef, inScope, after, links(p))
  }

  /** The kept points are the best `ef` of the visited points in scope. */
  ghost predicate KeepsBest(d: nat -> Dist, ef: nat, inScope: Scope, b: Beam) {
    && b.candidates <= b.visited && b.top <= b.visited
    && |b.top| <= ef
    && (forall t | t in b.top :: inScope(t))
    && (forall v | v in b.visited && inScope(v) && v !in b.top :: LeftOut(d, ef, b.top, v))
  }

  ghost predicate LeftOut(d: nat -> Dist, ef: nat, top: set<nat>, v: nat) {
    |top| == ef && forall t | t in top :: !Closer(d(v), d(t))
  }

  type Links = nat -> seq<nat>

  ghost predicate Expanded(links: Links, b: Beam, v: nat) {
    forall n | n in links(v) :: n in b.visited
  }

  /** Every visited point is still queued, already expanded, or in scope but left out. */
  ghost predicate Frontier(links: Links, inScope: Scope, b: Beam, expanding: set<nat>) {
    forall v | v in b.visited ::
      v in b.candidates || v in expanding || Expanded(links, b, v) || (inScope(v) && v !in b.top)
  }

  lemma VisitKeepsBest(d: nat -> Dist, ef: nat, inScope: Scope, b: Beam, p: nat)
    requires ef >= 1 && KeepsBest(d, ef, inScope, b)
    ensures KeepsBest(d, ef, inScope, Visit(d, ef, inScope, b, p))
    ensures |b.top| <= |Visit(d, ef, inScope, b, p).top|
  {
    var b' := Visit(d, ef, inScope, b, p);
    if p !in b.visited && inScope(p) && Admits(d, ef, b.top, p) {
      var grown := b.top + {p};
      assert |grown| == |b.top| + 1;
      forall v | v in b'.visited && inScope(v) && v !in b'.top
        ensures LeftOut(d, ef, b'.top, v)
      {
        if v in b.visited && v !in b.top {
          assert LeftOut(d, ef, b.top, v);
          var far := Farthest(d, b.top);
          assert Closer(d(p), d(far)) && !Closer(d(v), d(far));
        } else {
          assert v == Farthest(d, grown);
        }
      }
    } else if p !in b.visited && inScope(p) {
      var far := Farthest(d, b.top);
      forall t | t in b.top
        ensures !Closer(d(p), d(t))
      {
        assert RankLe(d, t, far);
      }
      assert LeftOut(d, ef, b.top, p);
    }
  }

  lemma VisitKeepsFrontier(d: nat -> Dist, ef: nat, links: Links, inScope: Scope, b: Beam, p: nat,
                           expanding: set<nat>)
    requires ef >= 1 && KeepsBest(d, ef, inScope, b) && Frontier(links, inScope, b, expanding)
    ensures Frontier(links, inScope, Visit(d, ef, inScope, b, p), expanding)
  {
    var b' := Visit(d, ef, inScope, b, p);
    forall v | v in b'.visited
      ensures v in b'.candidates || v in expanding || Expanded(links, b', v)
              || (inScope(v) && v !in b'.top)
    {
      if v in b.visited && Expanded(links, b, v) {
        assert Expanded(links, b', v);
      }
    }
  }

  /** The kept points number min(ef, visited points in scope). */
  lemma TopSize(d: nat -> Dist, ef: nat, inScope: Scope, b: Beam)
    requires KeepsBest(d, ef, inScope, b)
    ensures var seen := set v | v in b.visited && inScope(v);
            |b.top| == if ef < |seen| then ef else |seen|
  {
    var seen := set v | v in b.visited && inScope(v);
    assert b.top <= seen;
    assert seen == b.top + (seen - b.top);
    if b.top != seen {
      var v :| v in seen && v !in b.top;
      assert LeftOut(d, ef, b.top, v);
      assert |seen - b.top| > 0;
    }
  }

  // ---- When the search stops ----

  /** The plain search stops at the first candidate farther than the farthest kept point. */
  predicate StopsPlain(d: nat -> Dist, b: Beam) {
    b.candidates == {} || b.top == {} ||
    Closer(d(Farthest(d, b.top)), d(Nearest(d, b.candidates)))
  }

  /** The scoped search stops so only once it has `ef` points in scope. */
  predicate StopsScoped(d: nat -> Dist, ef: nat, b: Beam)
    requires ef >= 1
  {
    b.candidates == {} ||
    (|b.top| >= ef && Closer(d(Farthest(d, b.top)), d(Nearest(d, b.candidates))))
  }

  /** With everything in scope the two stopping rules agree. */
  lemma StoppingRulesAgree(d: nat -> Dist, ef: nat, b: Beam)
    requires ef >= 1 && KeepsBest(d, ef, EVERYWHERE, b) && b.top != {}
    ensures StopsPlain(d, b) <==> StopsScoped(d, ef, b)
  {
    if b.candidates != {} && |b.top| < ef {
      var c := Nearest(d, b.candidates);
      assert EVERYWHERE(c);
      assert c in b.top;
      assert RankLe(d, c, Farthest(d, b.top));
    }
  }

  /** What a finished beam guarantees about the links it searched. */
  ghost predicate Finished(d: nat -> Dist, ef: nat, links: Links, inScope: Scope, entry: nat, b: Beam) {
    && KeepsBest(d, ef, inScope, b)
    && entry in b.visited
    && (forall t | t in b.top :: Expanded(links, b, t))
    && (|b.top| < ef ==> forall v | v in b.visited :: Expanded(links, b, v))
  }

  /** Once the search stops every kept point has been expanded, and if the beam never filled up
      every visited point has. */
  lemma StopMeansFinished(d: nat -> Dist, ef: nat, links: Links, inScope: Scope, entry: nat, b: Beam)
    requires ef >= 1 && entry in b.visited
    requires KeepsBest(d, ef, inScope, b) && Frontier(links, inScope, b, {})
    requires StopsScoped(d, ef, b)
    ensures Finished(d, ef, links, inScope, entry, b)
  {
    forall t | t in b.top
      ensures Expanded(links, b, t)
    {
      assert t in b.candidates ==> RankLe(d, Nearest(d, b.candidates), t);
      assert RankLe(d, t, Farthest(d, b.top));
      assert t !in b.candidates;
    }
  }

  /** Local optimality: a link of a kept point that was not kept itself is, when in scope, no
      closer than any kept point. */
  lemma NoCloserLink(d: nat -> Dist, ef: nat, links: Links, inScope: Scope, entry: nat, b: Beam,
                     t: nat, n: nat, u: nat)
    requires Finished(d, ef, links, inScope, entry, b)
    requires t in b.top && n in links(t) && n !in b.top && inScope(n) && u in b.top
    ensures !Closer(d(n), d(u)) && |b.top| == ef
  {
    assert Expanded(links, b, t);
    assert LeftOut(d, ef, b.top, n);
  }

  // ---- Reachability ----

  ghost predicate IsPath(links: Links, path: seq<nat>) {
    path != [] && forall i | 0 <= i < |path| - 1 :: path[i + 1] in links(path[i])
  }

  ghost predicate Reachable(links: Links, s: nat, v: nat) {
    exists path :: IsPath(links, path) && path[0] == s && path[|path| - 1] == v
  }

  lemma ReachableSelf(links: Links, s: nat)
    ensures Reachable(links, s, s)
  {
    assert IsPath(links, [s]);
  }

  lemma ReachableStep(links: Links, s: nat, v: nat, n: nat)
    requires Reachable(links, s, v) && n in links(v)
    ensures Reachable(links, s, n)
  {
    var path :| IsPath(links, path) && path[0] == s && path[|path| - 1] == v;
    var longer := path + [n];
    assert forall i | 0 <= i < |longer| - 1 :: longer[i + 1] in links(longer[i]);
    assert IsPath(links, longer);
  }

  lemma {:induction false} ClosedContainsPath(links: Links, closed: set<nat>, path: seq<nat>)
    requires IsPath(links, path) && path[0] in closed
    requires forall v, n | v in closed && n in links(v) :: n in closed
    ensures path[|path| - 1] in closed
    decreases |path|
  {
    if |path| > 1 {
      assert path[0 + 1] in links(path[0]);
      forall i | 0 <= i < |path[1..]| - 1
        ensures path[1..][i + 1] in links(path[1..][i])
      {
        assert path[(i + 1) + 1] in links(path[i + 1]);
      }
      ClosedContainsPath(links, closed, path[1..]);
    }
  }

  /** A beam that ends with fewer than `ef` points has visited everything that can be reached from
      where it started. */
  lemma VisitedWhenNotFull(d: nat -> Dist, ef: nat, links: Links, inScope: Scope, entry: nat,
                           b: Beam, v: nat)
    requires Finished(d, ef, links, inScope, entry, b)
    requires |b.top| < ef && Reachable(links, entry, v)
    ensures v in b.visited
  {
    var path :| IsPath(links, path) && path[0] == entry && path[|path| - 1] == v;
    forall x, n | x in b.visited && n in links(x)
      ensures n in b.visited
    {
      assert Expanded(links, b, x);
    }
    ClosedContainsPath(links, b.visited, path);
  }

  /** Completeness: a beam that ends with fewer than `ef` points holds every point in scope that
      can be reached from where it started. */
  lemma CompleteWhenNotFull(d: nat -> Dist, ef: nat, links: Links, inScope: Scope, entry: nat,
                            b: Beam, v: nat)
    requires Finished(d, ef, links, inScope, entry, b)
    requires |b.top| < ef && Reachable(links, entry, v) && inScope(v)
    ensures v in b.top
  {
    VisitedWhenNotFull(d, ef, links, inScope, entry, b, v);
  }

  // ---- Termination ----

  function Below(n: nat): (s: set<nat>)
    ensures |s| == n
    ensures forall p: nat :: p in s <==> p < n
  {
    if n == 0 then {} else Below(n - 1) + {n - 1}
  }

  /** Bounds the pops left: each pop removes a candidate, and a candidate is pushed only when a
      point is visited for the first time. */
  ghost function Work(n: nat, b: Beam): int {
    2 * (n - |b.visited|) + |b.candidates|
  }

  lemma WorkBound(n: nat, b: Beam)
    requires b.visited <= Below(n)
    ensures Work(n, b) >= 0
  {
    assert Below(n) == b.visited + (Below(n) - b.visited);
  }

  lemma VisitWork(d: nat -> Dist, ef: nat, inScope: Scope, n: nat, b: Beam, p: nat)
    requires ef >= 1
    ensures Work(n, Visit(d, ef, inScope, b, p)) <= Work(n, b)
  {
    if p !in b.visited {
      assert |b.visited + {p}| == |b.visited| + 1;
      assert |b.candidates + {p}| <= |b.candidates| + 1;
    }
  }
}
