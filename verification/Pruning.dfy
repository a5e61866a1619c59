/** The diversity heuristic that trims a neighbour list of the vector index. */
module Pruning {
  import opened Distances

  type PairDist = (nat, nat) -> Dist

  /** How many links a point may keep at a level. */
  function MaxNeighbors(m: nat, level: nat): (cap: nat)
    ensures cap >= 1
  {
    var width := if level == 0 then 2 * m else m;
    if width < 1 then 1 else width
  }

  function From(pair: PairDist, q: nat): nat -> Dist {
    (p: nat) => pair(q, p)
  }

  function Members(s: seq<nat>): set<nat> {
    set p | p in s
  }

  /** Some point already kept is strictly closer to `c` than the point being linked is. */
  predicate Occluded(pair: PairDist, q: nat, c: nat, kept: seq<nat>) {
    exists i | 0 <= i < |kept| :: Closer(pair(c, kept[i]), pair(q, c))
  }

  datatype Sifted = Sifted(kept: seq<nat>, discarded: seq<nat>)

  /** Walks the ranked candidates, keeping those not occluded until `m` are kept. */
  function Sift(pair: PairDist, q: nat, ranked: seq<nat>, m: nat, acc: Sifted): Sifted
    decreases |ranked|
  {
    if ranked == [] || |acc.kept| == m then acc
    else if Occluded(pair, q, ranked[0], acc.kept) then
      Sift(pair, q, ranked[1..], m, acc.(discarded := acc.discarded + [ranked[0]]))
    else
      Sift(pair, q, ranked[1..], m, acc.(kept := acc.kept + [ranked[0]]))
  }

  /** Tops the kept points up to `m` with the nearest discarded ones. */
  function Refill(s: Sifted, m: nat): seq<nat>
    requires |s.kept| <= m
  {
    var room := m - |s.kept|;
    s.kept + s.discarded[..if room < |s.discarded| then room else |s.discarded|]
  }

  function PruneRanked(pair: PairDist, q: nat, ranked: seq<nat>, m: nat): seq<nat> {
    if m == 0 then []
    else if |ranked| <= m then ranked
    else
      SiftBounds(pair, q, ranked, m, Sifted([], []));
      Refill(Sift(pair, q, ranked, m, Sifted([], [])), m)
  }

  /** What pruning the list of `q` to `m` members leaves in it. */
  function Pruned(pair: PairDist, q: nat, neighbors: seq<nat>, m: nat): seq<nat> {
    PruneRanked(pair, q, Ranked(From(pair, q), Members(neighbors)), m)
  }

  lemma {:induction false} SiftBounds(pair: PairDist, q: nat, ranked: seq<nat>, m: nat, acc: Sifted)
    requires |acc.kept| <= m
    ensures var r := Sift(pair, q, ranked, m, acc);
            && acc.kept <= r.kept && acc.discarded <= r.discarded
            && |r.kept| <= m
            && |r.kept| + |r.discarded| <= |acc.kept| + |acc.discarded| + |ranked|
            && (|r.kept| < m ==>
                  |r.kept| + |r.discarded| == |acc.kept| + |acc.discarded| + |ranked|)
    decreases |ranked|
  {
    if ranked == [] || |acc.kept| == m {
    } else if Occluded(pair, q, ranked[0], acc.kept) {
      SiftBounds(pair, q, ranked[1..], m, acc.(discarded := acc.discarded + [ranked[0]]));
    } else {
      SiftBounds(pair, q, ranked[1..], m, acc.(kept := acc.kept + [ranked[0]]));
    }
  }

  /** Everything sifted comes, in order and without repetition, from the ranked candidates. */
  ghost predicate SiftState(pair: PairDist, q: nat, all: seq<nat>, done: nat, s: Sifted) {
    && done <= |all|
    && (forall p | p in s.kept :: p in all[..done])
    && (forall p | p in s.discarded :: p in all[..done])
    && NoDuplicates(s.kept) && NoDuplicates(s.discarded)
    && (forall p | p in s.kept :: p !in s.discarded)
    && RankedBy(From(pair, q), s.kept) && RankedBy(From(pair, q), s.discarded)
    && (forall i, j | 0 <= i < j < |s.kept| :: !Closer(pair(s.kept[j], s.kept[i]), pair(q, s.kept[j])))
    && (forall p | p in s.discarded :: Occluded(pair, q, p, s.kept))
    && (s.kept != [] ==> done > 0 && s.kept[0] == all[0])
    && (done > 0 ==> s.kept != [])
  }

  lemma SiftStep(pair: PairDist, q: nat, all: seq<nat>, done: nat, s: Sifted)
    requires NoDuplicates(all) && RankedBy(From(pair, q), all)
    requires done < |all| && SiftState(pair, q, all, done, s)
    ensures var c := all[done];
            SiftState(pair, q, all, done + 1,
                      if Occluded(pair, q, c, s.kept) then s.(discarded := s.discarded + [c])
                      else s.(kept := s.kept + [c]))
  {
    var c := all[done];
    assert all[..done + 1] == all[..done] + [c];
    assert c !in all[..done];
    forall p | p in all[..done]
      ensures RankLe(From(pair, q), p, c)
    {
    }
    if Occluded(pair, q, c, s.kept) {
      var s' := s.(discarded := s.discarded + [c]);
      forall i, j | 0 <= i < j < |s'.discarded|
        ensures RankLe(From(pair, q), s'.discarded[i], s'.discarded[j])
      {
        assert s'.discarded[i] in s.discarded;
      }
      forall p | p in s'.kept || p in s'.discarded
        ensures p in all[..done + 1]
      {
        assert p == c || p in s.kept || p in s.discarded;
      }
      forall i, j | 0 <= i < j < |s'.discarded|
        ensures s'.discarded[i] != s'.discarded[j]
      {
        assert s'.discarded[i] in s.discarded;
      }
      forall p | p in s'.discarded
        ensures Occluded(pair, q, p, s'.kept)
      {
        assert p == c || p in s.discarded;
      }
    } else {
      var s' := s.(kept := s.kept + [c]);
      forall i, j | 0 <= i < j < |s'.kept|
        ensures RankLe(From(pair, q), s'.kept[i], s'.kept[j])
      {
        assert s'.kept[i] in s.kept;
      }
      forall p | p in s'.discarded
        ensures Occluded(pair, q, p, s'.kept)
      {
        var i :| 0 <= i < |s.kept| && Closer(pair(p, s.kept[i]), pair(q, p));
        assert s'.kept[i] == s.kept[i];
      }
    }
  }

  lemma {:induction false} SiftKeeps(pair: PairDist, q: nat, all: seq<nat>, done: nat, m: nat, s: Sifted)
    returns (used: nat)
    requires NoDuplicates(all) && RankedBy(From(pair, q), all)
    requires SiftState(pair, q, all, done, s) && |s.kept| <= m
    ensures done <= used <= |all|
    ensures SiftState(pair, q, all, used, Sift(pair, q, all[done..], m, s))
    decreases |all| - done
  {
    used := done;
    if done < |all| && |s.kept| != m {
      SiftStep(pair, q, all, done, s);
      var c := all[done];
      assert all[done..][1..] == all[done + 1..];
      if Occluded(pair, q, c, s.kept) {
        used := SiftKeeps(pair, q, all, done + 1, m, s.(discarded := s.discarded + [c]));
      } else {
        used := SiftKeeps(pair, q, all, done + 1, m, s.(kept := s.kept + [c]));
      }
    }
  }

  /** Pruning keeps a duplicate-free selection of exactly min(m, distinct candidates) members,
      the nearest candidate first. */
  lemma PrunedSelection(pair: PairDist, q: nat, neighbors: seq<nat>, m: nat)
    ensures var r := Pruned(pair, q, neighbors, m);
            var distinct := |Members(neighbors)|;
            && |r| == (if m < distinct then m else distinct)
            && NoDuplicates(r)
            && (forall p | p in r :: p in neighbors)
            && (m > 0 && neighbors != [] ==>
                  r != [] && forall p | p in neighbors :: RankLe(From(pair, q), r[0], p))
  {
    var d := From(pair, q);
    var ranked := Ranked(d, Members(neighbors));
    if neighbors != [] {
      assert neighbors[0] in Members(neighbors);
      forall p | p in neighbors
        ensures RankLe(d, ranked[0], p)
      {
        assert p in Members(neighbors);
      }
    }
    if m > 0 && |ranked| > m {
      var start := Sifted([], []);
      assert ranked[0..] == ranked;
      SiftBounds(pair, q, ranked, m, start);
      var used := SiftKeeps(pair, q, ranked, 0, m, start);
      var s := Sift(pair, q, ranked, m, start);
      SiftFirst(pair, q, ranked, m);
      RefillShape(s, m);
      forall p | p in Refill(s, m)
        ensures p in neighbors
      {
        assert p in s.kept || p in s.discarded;
        assert p in ranked;
      }
    }
  }

  lemma SiftFirst(pair: PairDist, q: nat, ranked: seq<nat>, m: nat)
    requires ranked != [] && m > 0
    ensures Sift(pair, q, ranked, m, Sifted([], [])).kept != []
  {
    SiftBounds(pair, q, ranked[1..], m, Sifted([ranked[0]], []));
    assert !Occluded(pair, q, ranked[0], []);
    assert [] + [ranked[0]] == [ranked[0]];
  }

  lemma RefillShape(s: Sifted, m: nat)
    requires |s.kept| <= m
    requires NoDuplicates(s.kept) && NoDuplicates(s.discarded)
    requires forall p | p in s.kept :: p !in s.discarded
    ensures NoDuplicates(Refill(s, m))
    ensures s.kept <= Refill(s, m)
    ensures forall p | p in Refill(s, m) :: p in s.kept || p in s.discarded
  {
    var r := Refill(s, m);
    forall i, j | 0 <= i < j < |r|
      ensures r[i] != r[j]
    {
      if i < |s.kept| <= j {
        assert r[j] in s.discarded;
      }
    }
  }

  /** When there are more than `m` distinct candidates the result splits in two: a diverse part in
      which no member is occluded by an earlier one, then a refill. The refill is a prefix of the
      skipped candidates, each of which is occluded by the diverse part; and unless the diverse
      part alone fills the list, every candidate is in one of the two. */
  lemma PrunedDiversity(pair: PairDist, q: nat, neighbors: seq<nat>, m: nat)
    returns (diverse: seq<nat>, skipped: seq<nat>)
    requires 0 < m < |Members(neighbors)|
    ensures diverse != [] && |diverse| <= m
    ensures m - |diverse| <= |skipped| || |diverse| == m
    ensures Pruned(pair, q, neighbors, m) ==
            diverse + (if |diverse| == m then [] else skipped[..m - |diverse|])
    ensures forall i, j | 0 <= i < j < |diverse| ::
              !Closer(pair(diverse[j], diverse[i]), pair(q, diverse[j]))
    ensures forall p | p in skipped :: Occluded(pair, q, p, diverse)
    ensures RankedBy(From(pair, q), diverse) && RankedBy(From(pair, q), skipped)
    ensures |diverse| < m ==> forall p | p in neighbors :: p in diverse || p in skipped
  {
    var d := From(pair, q);
    var ranked := Ranked(d, Members(neighbors));
    var start := Sifted([], []);
    assert ranked[0..] == ranked;
    SiftBounds(pair, q, ranked, m, start);
    var used := SiftKeeps(pair, q, ranked, 0, m, start);
    SiftFirst(pair, q, ranked, m);
    var s := Sift(pair, q, ranked, m, start);
    diverse, skipped := s.kept, s.discarded;
    if |diverse| < m {
      CoversByCount(diverse, skipped, ranked);
      forall p | p in neighbors
        ensures p in diverse || p in skipped
      {
        assert p in Members(neighbors);
        assert p in ranked;
      }
    }
  }

  lemma CoversByCount(a: seq<nat>, b: seq<nat>, all: seq<nat>)
    requires NoDuplicates(a) && NoDuplicates(b) && NoDuplicates(all)
    requires forall p | p in a :: p !in b
    requires forall p | p in a || p in b :: p in all
    requires |a| + |b| == |all|
    ensures forall p | p in all :: p in a || p in b
  {
    MembersCount(a);
    MembersCount(b);
    MembersCount(all);
    var u := Members(a) + Members(b);
    assert Members(a) * Members(b) == {};
    assert |u| == |a| + |b|;
    assert u <= Members(all);
    if exists p :: p in all && p !in a && p !in b {
      var p :| p in all && p !in a && p !in b;
      assert u <= Members(all) - {p};
      SubsetCount(u, Members(all) - {p});
      assert false;
    }
  }

  lemma {:induction false} MembersCount(s: seq<nat>)
    requires NoDuplicates(s)
    ensures |Members(s)| == |s|
    decreases |s|
  {
    if s != [] {
      var n := |s| - 1;
      MembersCount(s[..n]);
      assert s == s[..n] + [s[n]];
      assert Members(s) == Members(s[..n]) + {s[n]};
    }
  }

  lemma {:induction false} SubsetCount<T>(a: set<T>, b: set<T>)
    requires a <= b
    ensures |a| <= |b|
  {
    assert b == a + (b - a);
  }

  // ---- The in-place procedure ----

  lemma RankAntisymmetric(d: nat -> Dist, p: nat, q: nat)
    requires RankLe(d, p, q) || p == q
    requires RankLe(d, q, p)
    ensures p == q
  {
  }

  lemma {:induction false} StrictRankingUnique(d: nat -> Dist, a: seq<nat>, b: seq<nat>)
    requires NoDuplicates(a) && NoDuplicates(b)
    requires RankedBy(d, a) && RankedBy(d, b)
    requires forall p :: p in a <==> p in b
    ensures a == b
    decreases |a|
  {
    if b != [] {
      assert b[0] in b;
    }
    if a != [] {
      assert a[0] in a;
      var i :| 0 <= i < |b| && b[i] == a[0];
      var j :| 0 <= j < |a| && a[j] == b[0];
      assert RankLe(d, a[0], b[0]) || j == 0;
      assert RankLe(d, b[0], a[0]) || i == 0;
      assert a[0] == b[0];
      forall p
        ensures p in a[1..] <==> p in b[1..]
      {
        if p in a[1..] {
          assert p in b && p != b[0];
          assert b == [b[0]] + b[1..];
        }
        if p in b[1..] {
          assert p in a && p != a[0];
          assert a == [a[0]] + a[1..];
        }
      }
      StrictRankingUnique(d, a[1..], b[1..]);
      assert a == [a[0]] + a[1..] && b == [b[0]] + b[1..];
    }
  }

  /** Insertion into a list sorted by distance, ties by point index. */
  method InsertRanked(d: nat -> Dist, sorted: seq<nat>, p: nat) returns (r: seq<nat>)
    requires RankedBy(d, sorted)
    ensures RankedBy(d, r)
    ensures multiset(r) == multiset(sorted) + multiset{p}
  {
    var i := 0;
    while i < |sorted| && RankLe(d, sorted[i], p)
      invariant 0 <= i <= |sorted|
      invariant forall k | 0 <= k < i :: RankLe(d, sorted[k], p)
    {
      i := i + 1;
    }
    r := sorted[..i] + [p] + sorted[i..];
    assert sorted == sorted[..i] + sorted[i..];
    forall a, b | 0 <= a < b < |r|
      ensures RankLe(d, r[a], r[b])
    {
      if a == i {
        assert RankLe(d, p, sorted[i]);
        if b - 1 > i {
          RankTransitive(d, p, sorted[i], sorted[b - 1]);
        }
      }
    }
  }

  /** Sorts a candidate list by distance and point index and drops repeated points. */
  method SortAndDedup(d: nat -> Dist, neighbors: seq<nat>) returns (r: seq<nat>)
    ensures r == Ranked(d, Members(neighbors))
  {
    var sorted: seq<nat> := [];
    for i := 0 to |neighbors|
      invariant RankedBy(d, sorted)
      invariant multiset(sorted) == multiset(neighbors[..i])
    {
      sorted := InsertRanked(d, sorted, neighbors[i]);
      assert neighbors[..i + 1] == neighbors[..i] + [neighbors[i]];
    }
    assert neighbors[..|neighbors|] == neighbors;
    forall p
      ensures p in sorted <==> p in neighbors
    {
      assert p in multiset(sorted) <==> p in multiset(neighbors);
    }
    r := [];
    for i := 0 to |sorted|
      invariant NoDuplicates(r) && RankedBy(d, r)
      invariant forall p :: p in r <==> p in sorted[..i]
      invariant i > 0 ==> r != [] && r[|r| - 1] == sorted[i - 1]
    {
      if r == [] || r[|r| - 1] != sorted[i] {
        forall k | 0 <= k < |r|
          ensures RankLe(d, r[k], sorted[i]) && r[k] != sorted[i]
        {
          assert r[k] in sorted[..i];
          if RankLe(d, r[|r| - 1], r[k]) {
            RankAntisymmetric(d, r[k], r[|r| - 1]);
          }
        }
        r := r + [sorted[i]];
      }
      assert sorted[..i + 1] == sorted[..i] + [sorted[i]];
    }
    assert sorted[..|sorted|] == sorted;
    forall p
      ensures p in r <==> p in Ranked(d, Members(neighbors))
    {
      assert p in Members(neighbors) <==> p in neighbors;
    }
    StrictRankingUnique(d, r, Ranked(d, Members(neighbors)));
  }

  /** The inner scan: is the candidate occluded by a point kept so far? Stops at the first hit. */
  method ScanForOcclusion(pair: PairDist, q: nat, c: nat, kept: seq<nat>) returns (occluded: bool)
    ensures occluded <==> Occluded(pair, q, c, kept)
  {
    occluded := false;
    var k := 0;
    while k < |kept| && !occluded
      invariant 0 <= k <= |kept|
      invariant occluded <==> exists j | 0 <= j < k :: Closer(pair(c, kept[j]), pair(q, c))
    {
      occluded := Closer(pair(c, kept[k]), pair(q, c));
      k := k + 1;
    }
  }

  /** The sifting loop over the ranked candidates. */
  method SiftCandidates(pair: PairDist, q: nat, ranked: seq<nat>, m: nat) returns (s: Sifted)
    ensures s == Sift(pair, q, ranked, m, Sifted([], []))
  {
    s := Sifted([], []);
    var i := 0;
    assert ranked[0..] == ranked;
    while i < |ranked| && |s.kept| != m
      invariant 0 <= i <= |ranked|
      invariant Sift(pair, q, ranked[i..], m, s) == Sift(pair, q, ranked, m, Sifted([], []))
    {
      var occluded := ScanForOcclusion(pair, q, ranked[i], s.kept);
      assert ranked[i..][1..] == ranked[i + 1..];
      if occluded {
        s := s.(discarded := s.discarded + [ranked[i]]);
      } else {
        s := s.(kept := s.kept + [ranked[i]]);
      }
      i := i + 1;
    }
  }

  /** The refill loop. */
  method RefillKept(s: Sifted, m: nat) returns (r: seq<nat>)
    requires |s.kept| <= m
    ensures r == Refill(s, m)
  {
    r := s.kept;
    var j := 0;
    while j < |s.discarded| && |r| != m
      invariant 0 <= j <= |s.discarded| && |r| == |s.kept| + j <= m
      invariant r == s.kept + s.discarded[..j]
    {
      r := r + [s.discarded[j]];
      j := j + 1;
    }
  }

  /** Pruning as the build performs it: sort, drop duplicates, sift, then refill from the
      discarded candidates in order. */
  method PruneNeighbors(pair: PairDist, q: nat, neighbors: seq<nat>, m: nat) returns (r: seq<nat>)
    ensures r == Pruned(pair, q, neighbors, m)
  {
    if neighbors == [] || m == 0 {
      assert neighbors == [] ==> Members(neighbors) == {};
      return [];
    }
    var ranked := SortAndDedup(From(pair, q), neighbors);
    if |ranked| <= m {
      return ranked;
    }
    var s := SiftCandidates(pair, q, ranked, m);
    SiftBounds(pair, q, ranked, m, Sifted([], []));
    r := RefillKept(s, m);
  }
}
