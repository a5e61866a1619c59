/** Distances between vectors and the orders the vector index ranks points by. */
module Distances {

  /** An f32 distance that is not a NaN. `num` orders distances the way the float `<` does;
      `tie` separates distances that `<` cannot tell apart but `total_cmp` can (-0.0 and 0.0). */
  datatype Dist = Dist(num: int, tie: int)

  /** The float comparison `a < b`. */
  predicate Closer(a: Dist, b: Dist) {
    a.num < b.num
  }

  /** `a.total_cmp(&b)` is not `Greater`. */
  predicate TotalLe(a: Dist, b: Dist) {
    a.num < b.num || (a.num == b.num && a.tie <= b.tie)
  }

  /** Points ranked by distance under `total_cmp`, ties broken by point index. */
  predicate RankLe(d: nat -> Dist, p: nat, q: nat) {
    TotalLe(d(p), d(q)) && (d(p) == d(q) ==> p <= q)
  }

  ghost predicate IsNearest(d: nat -> Dist, s: set<nat>, p: nat) {
    p in s && forall q | q in s :: RankLe(d, p, q)
  }

  ghost predicate IsFarthest(d: nat -> Dist, s: set<nat>, p: nat) {
    p in s && forall q | q in s :: RankLe(d, q, p)
  }

  /** The point a min-heap of candidates would pop. */
  function Nearest(d: nat -> Dist, s: set<nat>): (p: nat)
    requires s != {}
    ensures p in s
    ensures forall q | q in s :: RankLe(d, p, q)
  {
    assert exists p :: IsNearest(d, s, p) by {
      var w := NearestWitness(d, s);
    }
    var p :| p in s && forall q | q in s :: RankLe(d, p, q);
    p
  }

  /** The point a max-heap of results would pop. */
  function Farthest(d: nat -> Dist, s: set<nat>): (p: nat)
    requires s != {}
    ensures p in s
    ensures forall q | q in s :: RankLe(d, q, p)
  {
    assert exists p :: IsFarthest(d, s, p) by {
      var w := FarthestWitness(d, s);
    }
    var p :| p in s && forall q | q in s :: RankLe(d, q, p);
    p
  }

  lemma RankTransitive(d: nat -> Dist, p: nat, q: nat, r: nat)
    requires RankLe(d, p, q) && RankLe(d, q, r)
    ensures RankLe(d, p, r)
  {
  }

  lemma {:induction false} NearestWitness(d: nat -> Dist, s: set<nat>) returns (best: nat)
    requires s != {}
    ensures IsNearest(d, s, best)
  {
    best :| best in s;
    var rest := s - {best};
    if rest != {} {
      var p := NearestWitness(d, rest);
      var x := best;
      best := if RankLe(d, x, p) then x else p;
      forall q | q in s
        ensures RankLe(d, best, q)
      {
        if q != x && best == x {
          RankTransitive(d, x, p, q);
        }
      }
    } else {
      assert s == {best};
    }
  }

  lemma {:induction false} FarthestWitness(d: nat -> Dist, s: set<nat>) returns (best: nat)
    requires s != {}
    ensures IsFarthest(d, s, best)
  {
    best :| best in s;
    var rest := s - {best};
    if rest != {} {
      var p := FarthestWitness(d, rest);
      var x := best;
      best := if RankLe(d, p, x) then x else p;
      forall q | q in s
        ensures RankLe(d, q, best)
      {
        if q != x && best == x {
          RankTransitive(d, q, p, x);
        }
      }
    } else {
      assert s == {best};
    }
  }

  /** All points of a set, nearest first. */
  function Ranked(d: nat -> Dist, s: set<nat>): (r: seq<nat>)
    ensures |r| == |s|
    ensures forall p :: p in r <==> p in s
    ensures NoDuplicates(r)
    ensures RankedBy(d, r)
  {
    if s == {} then [] else
      var p := Nearest(d, s);
      [p] + Ranked(d, s - {p})
  }

  ghost predicate NoDuplicates<T>(s: seq<T>) {
    forall i, j | 0 <= i < j < |s| :: s[i] != s[j]
  }

  ghost predicate RankedBy(d: nat -> Dist, s: seq<nat>) {
    forall i, j | 0 <= i < j < |s| :: RankLe(d, s[i], s[j])
  }
}
