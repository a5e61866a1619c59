/** No interleaving of the parallel build makes a point its own neighbour, although a search may run
    into a point that other workers have already linked on a level its own worker has not reached.

    The argument follows how points hang together on each level. A worker starts its search of a
    level from some point: the insertion "hangs below" that point there. The relation stays a partial
    order on every level, links never connect points that hang differently below a pending insertion,
    and so a search started outside what hangs below a pending point never reaches that point. */
module NoSelfLoops {
  import opened Distances
  import opened Pruning
  import opened Beams
  import opened VectorSearch
  import opened ParallelBuild

  /** `below(l, x, a)`: on level l, x hangs below a. `parent[(l, x)]`: where x's search of level l
      starts, once known. `joined`: the (point, level) pairs other workers may meet. */
  datatype Forest = Forest(below: (nat, nat, nat) -> bool, parent: map<(nat, nat), nat>,
                           joined: set<(nat, nat)>)

  /** The worker has written its point's own list at this level. */
  predicate Installed(wk: Worker, l: nat) {
    match wk
    case Waiting => false
    case Descending(_, _) => false
    case Searching(level, _, _) => l > level
    case Linking(level, _, _) => l > level
    case BackLinking(level, _, _, _) => l >= level
    case _ => true
  }

  predicate Pending(s: State, u: nat, l: nat) {
    u < |s.workers| && !Installed(s.workers[u], l)
  }

  /** The two points hang below the same pending insertions. */
  ghost predicate Alike(s: State, f: Forest, l: nat, x: nat, y: nat) {
    forall u: nat | Pending(s, u, l) :: f.below(l, x, u) <==> f.below(l, y, u)
  }

  ghost predicate OrderOk(f: Forest) {
    && (forall l: nat, x: nat :: f.below(l, x, x))
    && (forall l: nat, x: nat, y: nat, z: nat | f.below(l, x, y) && f.below(l, y, z) :: f.below(l, x, z))
    && (forall l: nat, x: nat, y: nat | f.below(l, x, y) && f.below(l, y, x) :: x == y)
  }

  /** A point hangs below others only through its one parent. */
  ghost predicate ParentsOk(f: Forest) {
    && (forall l: nat, x: nat | (l, x) in f.parent :: f.parent[(l, x)] != x && f.below(l, x, f.parent[(l, x)]))
    && (forall l: nat, x: nat, a: nat | f.below(l, x, a) && x != a ::
          (l, x) in f.parent && f.below(l, f.parent[(l, x)], a))
  }

  ghost predicate JoinedOk(c: Config, f: Forest) {
    && (forall p: nat, l: nat | (p, l) in f.joined :: HasLevel(c, p, l))
    && (forall p: nat, l: nat, k: nat | (p, l) in f.joined && k <= l :: (p, k) in f.joined)
    && (forall p: nat, l: nat, x: nat | (p, 0) !in f.joined && f.below(l, x, p) :: x == p)
  }

  ghost predicate Bond(s: State, f: Forest, l: nat, p: nat, x: nat) {
    x != p && Alike(s, f, l, p, x) && (p, l) in f.joined && (x, l) in f.joined
  }

  ghost predicate LinksOk(s: State, f: Forest) {
    forall p: nat, l: nat, x: nat | (p, l) in s.lists && x in s.lists[(p, l)] :: Bond(s, f, l, p, x)
  }

  ghost predicate NoParents(f: Forest, u: nat, below: nat) {
    forall l: nat | l < below :: (l, u) !in f.parent
  }

  ghost predicate Reached(s: State, f: Forest, level: nat, start: nat, x: nat) {
    Alike(s, f, level, start, x) && (x, level) in f.joined
  }

  ghost predicate WorkerLinked(c: Config, s: State, f: Forest, u: nat, wk: Worker) {
    match wk
    case Waiting => (u, 0) !in f.joined && forall l: nat :: (l, u) !in f.parent
    case Descending(level, current) =>
      && (u, 0) !in f.joined && (forall l: nat :: (l, u) !in f.parent)
      && (current, level) in f.joined
    case Searching(level, start, beam) =>
      && (level, u) in f.parent && f.parent[(level, u)] == start && NoParents(f, u, level)
      && (forall x | x in beam.visited :: Reached(s, f, level, start, x))
    case Linking(level, start, selected) =>
      && (level, u) in f.parent && f.parent[(level, u)] == start && NoParents(f, u, level)
      && (forall x | x in selected :: Reached(s, f, level, start, x))
    case BackLinking(level, start, selected, next) =>
      && (u, level) in f.joined
      && (level > 0 ==> (level - 1, u) in f.parent && f.parent[(level - 1, u)] == Best(start, selected)
                        && NoParents(f, u, level - 1))
      && (forall x | x in selected :: Bond(s, f, level, u, x))
    case _ => true
  }

  /** What hangs below a pending insertion on one level already did on the level above. */
  ghost predicate LevelsOk(s: State, f: Forest) {
    forall l: nat, x: nat, u: nat | Pending(s, u, l + 1) && (x, l + 1) in f.joined && f.below(l, x, u) ::
      f.below(l + 1, x, u)
  }

  ghost predicate IsPastEntry(s: State, p: nat, l: nat) {
    Entry(p, l) in s.past
  }

  ghost predicate EntriesOk(c: Config, s: State, f: Forest) {
    && (forall e | e in s.past ::
          && (e.point, e.level) in f.joined
          && (e.level, e.point) !in f.parent
          && e.point < |s.workers| && s.workers[e.point] == Done)
    && (forall l: nat, u: nat | (l, u) in f.parent ::
          && l <= s.entry.level
          && ((u, l + 1) in f.joined || !HasLevel(c, u, l + 1) || IsPastEntry(s, f.parent[(l, u)], l)))
  }

  /** Everything but what the worker of `w` itself has at hand. */
  ghost predicate HangingExcept(c: Config, s: State, f: Forest, w: nat) {
    && OrderOk(f) && ParentsOk(f) && JoinedOk(c, f)
    && LinksOk(s, f) && LevelsOk(s, f) && EntriesOk(c, s, f)
    && forall u: nat | u < |s.workers| && u != w :: WorkerLinked(c, s, f, u, s.workers[u])
  }

  ghost predicate Hanging(c: Config, s: State, f: Forest) {
    && HangingExcept(c, s, f, |s.workers|)
  }

  // ---- Attaching an insertion below its starting point ----

  ghost function Attach(f: Forest, l: nat, w: nat, b: nat): Forest {
    Forest((k: nat, x: nat, a: nat) => f.below(k, x, a) || (k == l && f.below(l, x, w) && f.below(l, b, a)),
           f.parent[(l, w) := b], f.joined)
  }

  lemma AttachKeepsOrder(f: Forest, l: nat, w: nat, b: nat)
    requires OrderOk(f) && ParentsOk(f)
    requires (l, w) !in f.parent && !f.below(l, b, w)
    ensures OrderOk(Attach(f, l, w, b)) && ParentsOk(Attach(f, l, w, b))
  {
    var g := Attach(f, l, w, b);
    forall k: nat, x: nat, y: nat, z: nat | g.below(k, x, y) && g.below(k, y, z)
      ensures g.below(k, x, z)
    {
      assert !(f.below(l, b, y) && f.below(l, y, w));
    }
    forall k: nat, x: nat, y: nat | g.below(k, x, y) && g.below(k, y, x)
      ensures x == y
    {
      assert !(f.below(l, b, y) && f.below(l, y, x) && f.below(l, x, w));
      assert !(f.below(l, b, x) && f.below(l, x, y) && f.below(l, y, w));
      assert !(f.below(l, b, y) && f.below(l, y, w));
    }
    forall k: nat, x: nat, a: nat | g.below(k, x, a) && x != a
      ensures (k, x) in g.parent && g.below(k, g.parent[(k, x)], a)
    {
      if !f.below(k, x, a) && x != w {
        assert f.below(l, x, w);
        assert f.below(l, f.parent[(l, x)], w);
      }
    }
  }

  /** Points alike before stay alike: the attached insertion was itself pending. */
  lemma AttachKeepsAlike(s: State, f: Forest, l: nat, w: nat, b: nat, k: nat, x: nat, y: nat)
    requires Pending(s, w, l) && Alike(s, f, k, x, y)
    ensures Alike(s, Attach(f, l, w, b), k, x, y)
  {
    var g := Attach(f, l, w, b);
    forall u: nat | Pending(s, u, k)
      ensures g.below(k, x, u) <==> g.below(k, y, u)
    {
      assert f.below(k, x, u) <==> f.below(k, y, u);
      assert k == l ==> (f.below(k, x, w) <==> f.below(k, y, w));
    }
  }

  /** Workers other than the attached one are not affected. */
  lemma AttachKeepsWorker(c: Config, s: State, f: Forest, l: nat, w: nat, b: nat, u: nat)
    requires Pending(s, w, l) && u != w
    requires u < |s.workers| && WorkerLinked(c, s, f, u, s.workers[u])
    ensures WorkerLinked(c, s, Attach(f, l, w, b), u, s.workers[u])
  {
    var g := Attach(f, l, w, b);
    match s.workers[u]
    case Searching(level, start, beam) =>
      forall x | x in beam.visited
        ensures Reached(s, g, level, start, x)
      {
        assert Reached(s, f, level, start, x);
        AttachKeepsAlike(s, f, l, w, b, level, start, x);
      }
    case Linking(level, start, selected) =>
      forall x | x in selected
        ensures Reached(s, g, level, start, x)
      {
        assert Reached(s, f, level, start, x);
        AttachKeepsAlike(s, f, l, w, b, level, start, x);
      }
    case BackLinking(level, start, selected, next) =>
      forall x | x in selected
        ensures Bond(s, g, level, u, x)
      {
        assert Bond(s, f, level, u, x);
        AttachKeepsAlike(s, f, l, w, b, level, u, x);
      }
    case _ =>
  }

  lemma AttachKeepsLinks(s: State, f: Forest, l: nat, w: nat, b: nat)
    requires Pending(s, w, l) && LinksOk(s, f)
    ensures LinksOk(s, Attach(f, l, w, b))
  {
    var g := Attach(f, l, w, b);
    forall p: nat, k: nat, x: nat | (p, k) in s.lists && x in s.lists[(p, k)]
      ensures Bond(s, g, k, p, x)
    {
      assert Bond(s, f, k, p, x);
      AttachKeepsAlike(s, f, l, w, b, k, p, x);
    }
  }

  /** The levels stay consistent when what hangs below `w` on the lower level does so above too, and
      when hanging where `w` is attached implies, one level up, that `w` already hangs there. */
  lemma AttachKeepsLevels(s: State, f: Forest, l: nat, w: nat, b: nat)
    requires OrderOk(f) && LevelsOk(s, f)
    requires forall x: nat | f.below(l, x, w) && (x, l + 1) in f.joined :: f.below(l + 1, x, w)
    requires forall u: nat | Pending(s, u, l + 1) && f.below(l, b, u) && (exists x: nat :: f.below(l, x, w) && (x, l + 1) in f.joined) ::
               f.below(l + 1, w, u)
    ensures LevelsOk(s, Attach(f, l, w, b))
  {
    var g := Attach(f, l, w, b);
    forall k: nat, x: nat, u: nat | Pending(s, u, k + 1) && (x, k + 1) in g.joined && g.below(k, x, u)
      ensures g.below(k + 1, x, u)
    {
      if !f.below(k, x, u) {
        assert f.below(l + 1, x, w) && f.below(l + 1, w, u);
      }
    }
  }

  // ---- Moving one worker on ----

  /** Fewer insertions pending: whatever was alike stays alike. */
  ghost predicate PendingShrinks(s: State, s': State) {
    forall u: nat, l: nat | Pending(s', u, l) :: Pending(s, u, l)
  }

  lemma ShrinkKeepsWorker(c: Config, s: State, s': State, f: Forest, u: nat, wk: Worker)
    requires PendingShrinks(s, s') && WorkerLinked(c, s, f, u, wk)
    ensures WorkerLinked(c, s', f, u, wk)
  {
    match wk
    case Searching(level, start, beam) =>
      forall x | x in beam.visited
        ensures Reached(s', f, level, start, x)
      {
        assert Reached(s, f, level, start, x);
      }
    case Linking(level, start, selected) =>
      forall x | x in selected
        ensures Reached(s', f, level, start, x)
      {
        assert Reached(s, f, level, start, x);
      }
    case BackLinking(level, start, selected, next) =>
      forall x | x in selected
        ensures Bond(s', f, level, u, x)
      {
        assert Bond(s, f, level, u, x);
      }
    case _ =>
  }

  /** Links stay bonds when every link is old or a bond already. */
  lemma ShrinkKeepsLinks(s: State, s': State, f: Forest)
    requires PendingShrinks(s, s')
    requires forall p: nat, l: nat, x: nat | (p, l) in s'.lists && x in s'.lists[(p, l)] ::
               Bond(s, f, l, p, x) || Bond(s', f, l, p, x)
    ensures LinksOk(s', f)
  {
    forall p: nat, l: nat, x: nat | (p, l) in s'.lists && x in s'.lists[(p, l)]
      ensures Bond(s', f, l, p, x)
    {
      assert Bond(s, f, l, p, x) || Bond(s', f, l, p, x);
    }
  }

  /** A step that changes only one worker, and only forward, keeps the invariant as soon as that
      worker's own part holds. */
  lemma MoveOnly(c: Config, s: State, f: Forest, w: nat, wk: Worker, s': State)
    requires HangingExcept(c, s, f, w)
    requires w < |s.workers| && s'.workers == s.workers[w := wk]
    requires s'.entry == s.entry && s'.past == s.past
    requires forall p: nat, l: nat, x: nat | (p, l) in s'.lists && x in s'.lists[(p, l)] ::
               Bond(s, f, l, p, x) || Bond(s', f, l, p, x)
    requires forall l: nat | Installed(s.workers[w], l) :: Installed(wk, l)
    requires s.workers[w] == Done ==> wk == Done
    requires WorkerLinked(c, s, f, w, wk) || WorkerLinked(c, s', f, w, wk)
    ensures Hanging(c, s', f)
  {
    forall u: nat, l: nat | Pending(s', u, l)
      ensures Pending(s, u, l)
    {
      assert u != w ==> s'.workers[u] == s.workers[u];
    }
    ShrinkKeepsLinks(s, s', f);
    forall u: nat | u < |s'.workers|
      ensures WorkerLinked(c, s', f, u, s'.workers[u])
    {
      if u != w || WorkerLinked(c, s, f, w, wk) {
        ShrinkKeepsWorker(c, s, s', f, u, s'.workers[u]);
      }
    }
  }

  // ---- A point becoming visible ----

  ghost function Join(f: Forest, w: nat, level: nat): (g: Forest)
    ensures g.below == f.below && g.parent == f.parent
    ensures forall p: nat, l: nat :: (p, l) in g.joined <==> (p, l) in f.joined || (p == w && l <= level)
  {
    f.(joined := f.joined + set l | l in Below(level + 1) :: (w, l))
  }

  lemma JoinKeepsAlike(s: State, f: Forest, w: nat, level: nat, l: nat, x: nat, y: nat)
    requires Alike(s, f, l, x, y)
    ensures Alike(s, Join(f, w, level), l, x, y)
  {
  }

  lemma JoinKeepsWorker(c: Config, s: State, f: Forest, w: nat, level: nat, u: nat, wk: Worker)
    requires WorkerLinked(c, s, f, u, wk)
    requires u != w || !(wk.Waiting? || wk.Descending?)
    ensures WorkerLinked(c, s, Join(f, w, level), u, wk)
  {
    var g := Join(f, w, level);
    match wk
    case Searching(lv, start, beam) =>
      forall x | x in beam.visited
        ensures Reached(s, g, lv, start, x)
      {
        assert Reached(s, f, lv, start, x);
        JoinKeepsAlike(s, f, w, level, lv, start, x);
      }
    case Linking(lv, start, selected) =>
      forall x | x in selected
        ensures Reached(s, g, lv, start, x)
      {
        assert Reached(s, f, lv, start, x);
        JoinKeepsAlike(s, f, w, level, lv, start, x);
      }
    case BackLinking(lv, start, selected, next) =>
      forall x | x in selected
        ensures Bond(s, g, lv, u, x)
      {
        assert Bond(s, f, lv, u, x);
        JoinKeepsAlike(s, f, w, level, lv, u, x);
      }
    case _ =>
  }

  /** A point may become visible up to a level when wherever it hangs below a pending insertion on
      one of those levels it does so on the next. */
  lemma JoinKeepsHanging(c: Config, s: State, f: Forest, w: nat, level: nat)
    requires Hanging(c, s, f) && w < |s.workers| && HasLevel(c, w, level)
    requires !(s.workers[w].Waiting? || s.workers[w].Descending?)
    requires forall l: nat, u: nat | l < level && Pending(s, u, l + 1) && f.below(l, w, u) && (w, l + 1) !in f.joined ::
               f.below(l + 1, w, u)
    ensures Hanging(c, s, Join(f, w, level))
  {
    var g := Join(f, w, level);
    forall p: nat, l: nat, x: nat | (p, l) in s.lists && x in s.lists[(p, l)]
      ensures Bond(s, g, l, p, x)
    {
      assert Bond(s, f, l, p, x);
      JoinKeepsAlike(s, f, w, level, l, p, x);
    }
    forall u: nat | u < |s.workers|
      ensures WorkerLinked(c, s, g, u, s.workers[u])
    {
      JoinKeepsWorker(c, s, f, w, level, u, s.workers[u]);
    }
  }

  // ---- The steps ----

  lemma AttachKeepsRest(c: Config, s: State, f: Forest, l: nat, w: nat, b: nat)
    requires Hanging(c, s, f) && Pending(s, w, l) && (l, w) !in f.parent && !f.below(l, b, w)
    requires (b, 0) in f.joined && l <= s.entry.level
    requires (w, l + 1) in f.joined || !HasLevel(c, w, l + 1) || IsPastEntry(s, b, l)
    requires LevelsOk(s, Attach(f, l, w, b))
    ensures HangingExcept(c, s, Attach(f, l, w, b), w)
  {
    AttachKeepsOrder(f, l, w, b);
    AttachKeepsLinks(s, f, l, w, b);
    forall u: nat | u < |s.workers| && u != w
      ensures WorkerLinked(c, s, Attach(f, l, w, b), u, s.workers[u])
    {
      AttachKeepsWorker(c, s, f, l, w, b, u);
    }
  }

  /** An insertion starts its first search. */
  lemma BeginSearch(c: Config, s: State, f: Forest, w: nat, l: nat, b: nat)
    requires Structured(c, s) && Hanging(c, s, f) && w < |s.workers|
    requires s.workers[w].Waiting? || s.workers[w].Descending?
    requires (b, l) in f.joined && l <= s.entry.level
    requires !HasLevel(c, w, l + 1) || IsPastEntry(s, b, l)
    ensures Hanging(c, Set(s, w, SearchFrom(l, b)), Attach(f, l, w, b))
  {
    var g := Attach(f, l, w, b);
    AttachKeepsLevels(s, f, l, w, b);
    AttachKeepsRest(c, s, f, l, w, b);
    assert WorkerLinked(c, s, g, w, SearchFrom(l, b)) by {
      assert Reached(s, g, l, b, b);
    }
    MoveOnly(c, s, g, w, SearchFrom(l, b), Set(s, w, SearchFrom(l, b)));
  }

  lemma WaitingStep(c: Config, s: State, f: Forest, w: nat, loaded: Entry) returns (g: Forest)
    requires Structured(c, s) && Hanging(c, s, f) && w < |s.workers|
    requires s.workers[w].Waiting?
    ensures Hanging(c, Next(c, s, w, loaded), g)
  {
    g := f;
    if loaded in s.past {
      if loaded.level > c.levels[w] {
        MoveOnly(c, s, f, w, Descending(loaded.level, loaded.point), Next(c, s, w, loaded));
      } else {
        BeginSearch(c, s, f, w, loaded.level, loaded.point);
        g := Attach(f, loaded.level, w, loaded.point);
      }
    }
  }

  lemma DescendingStep(c: Config, s: State, f: Forest, w: nat, loaded: Entry) returns (g: Forest)
    requires Structured(c, s) && Hanging(c, s, f) && w < |s.workers|
    requires s.workers[w].Descending?
    ensures Hanging(c, Next(c, s, w, loaded), g)
  {
    g := f;
    var Descending(level, current) := s.workers[w];
    assert (current, level) in s.lists;
    var list := s.lists[(current, level)];
    assert ListOk(c, level, list);
    var best := GreedyBest(Metric(c, w), list, current);
    GreedyBestIsClosest(Metric(c, w), list, current);
    var wk := DescendStep(c, s, w, level, current);
    if best != current {
      assert Bond(s, f, level, current, best);
      MoveOnly(c, s, f, w, wk, Next(c, s, w, loaded));
    } else if level > c.levels[w] + 1 {
      MoveOnly(c, s, f, w, wk, Next(c, s, w, loaded));
    } else {
      BeginSearch(c, s, f, w, c.levels[w], current);
      g := Attach(f, c.levels[w], w, current);
    }
  }

  /** A search stays with points that hang the way its start does. */
  lemma SearchStaysAside(c: Config, s: State, f: Forest, w: nat, level: nat, start: nat, beam: Beam)
    requires Structured(c, s) && LinksOk(s, f) && w < |s.workers|
    requires s.workers[w] == Searching(level, start, beam) && WorkerLinked(c, s, f, w, s.workers[w])
    ensures WorkerLinked(c, s, f, w, SearchStep(c, s, w, level, start, beam))
  {
    var d := Metric(c, w);
    assert WorkerOk(c, s.entry.level, w, s.workers[w]);
    if StopsPlain(d, beam) {
      SelectionShape(c, w, level, beam.top);
    } else {
      var near := Nearest(d, beam.candidates);
      assert Reached(s, f, level, start, near);
      assert (near, level) in s.lists;
      var list := s.lists[(near, level)];
      VisitAllVisits(d, Ef(c), EVERYWHERE, beam.(candidates := beam.candidates - {near}), list);
      forall x | x in list
        ensures Reached(s, f, level, start, x)
      {
        assert Bond(s, f, level, near, x);
      }
    }
  }

  lemma SearchingStep(c: Config, s: State, f: Forest, w: nat, loaded: Entry)
    requires Structured(c, s) && Hanging(c, s, f) && w < |s.workers|
    requires s.workers[w].Searching?
    ensures Hanging(c, Next(c, s, w, loaded), f)
  {
    var Searching(level, start, beam) := s.workers[w];
    SearchStaysAside(c, s, f, w, level, start, beam);
    MoveOnly(c, s, f, w, SearchStep(c, s, w, level, start, beam), Next(c, s, w, loaded));
  }

  /** Nothing selected by a search hangs below the searching insertion, on its own level or, for
      the nearest one, on the level below. */
  lemma SelectionAside(c: Config, s: State, f: Forest, w: nat, x: nat)
    requires Hanging(c, s, f) && w < |s.workers| && s.workers[w].Linking?
    requires x in s.workers[w].selected
    ensures var level := s.workers[w].level;
            x != w && !f.below(level, x, w) && (level > 0 ==> !f.below(level - 1, x, w))
  {
    var Linking(level, start, selected) := s.workers[w];
    assert WorkerLinked(c, s, f, w, s.workers[w]);
    assert Reached(s, f, level, start, x);
    assert Pending(s, w, level);
    assert f.below(level, w, start);
  }

  /** Writing the own list ties the insertion to its start on this level, makes the point visible
      there, and fixes where the search of the next level starts. */
  ghost function LinkingForest(f: Forest, w: nat, level: nat, best: nat): Forest {
    var g := Join(f, w, level);
    if level == 0 then g else Attach(g, level - 1, w, best)
  }

  lemma LinkingJoins(c: Config, s: State, f: Forest, w: nat)
    requires Structured(c, s) && Hanging(c, s, f) && w < |s.workers| && s.workers[w].Linking?
    ensures Hanging(c, s, Join(f, w, s.workers[w].level))
  {
    var level := s.workers[w].level;
    assert WorkerLinked(c, s, f, w, s.workers[w]);
    assert WorkerOk(c, s.entry.level, w, s.workers[w]);
    forall l: nat, u: nat | l < level && Pending(s, u, l + 1) && f.below(l, w, u) && (w, l + 1) !in f.joined
      ensures f.below(l + 1, w, u)
    {
      assert (l, w) !in f.parent;
    }
    JoinKeepsHanging(c, s, f, w, level);
  }

  /** Whatever pending insertion the next start hangs below on the lower level, the linked point
      itself hangs below on its present level. */
  lemma LinkingLevels(c: Config, s: State, f: Forest, w: nat, b: nat)
    requires Hanging(c, s, f) && w < |s.workers| && s.workers[w].Linking? && s.workers[w].level > 0
    requires b in s.workers[w].selected
    ensures LevelsOk(s, Attach(f, s.workers[w].level - 1, w, b))
  {
    var Linking(level, start, selected) := s.workers[w];
    assert WorkerLinked(c, s, f, w, s.workers[w]);
    assert Reached(s, f, level, start, b);
    assert Pending(s, w, level);
    forall u: nat | Pending(s, u, level) && f.below(level - 1, b, u)
      ensures f.below(level, w, u)
    {
      assert f.below(level, b, u);
      assert f.below(level, start, u);
    }
    AttachKeepsLevels(s, f, level - 1, w, b);
  }

  lemma LinkingAttaches(c: Config, s: State, f: Forest, w: nat, b: nat)
    requires Hanging(c, s, f) && w < |s.workers| && s.workers[w].Linking? && s.workers[w].level > 0
    requires b in s.workers[w].selected && (w, s.workers[w].level) in f.joined
    ensures HangingExcept(c, s, Attach(f, s.workers[w].level - 1, w, b), w)
  {
    var Linking(level, start, selected) := s.workers[w];
    assert WorkerLinked(c, s, f, w, s.workers[w]);
    assert Reached(s, f, level, start, b);
    SelectionAside(c, s, f, w, b);
    LinkingLevels(c, s, f, w, b);
    AttachKeepsRest(c, s, f, level - 1, w, b);
  }

  lemma LinkingForestOk(c: Config, s: State, f: Forest, w: nat)
    requires Structured(c, s) && Hanging(c, s, f) && w < |s.workers| && s.workers[w].Linking?
    ensures var Linking(level, start, selected) := s.workers[w];
            HangingExcept(c, s, LinkingForest(f, w, level, Best(start, selected)), w)
  {
    var Linking(level, start, selected) := s.workers[w];
    LinkingJoins(c, s, f, w);
    if level > 0 {
      assert WorkerOk(c, s.entry.level, w, s.workers[w]);
      assert Best(start, selected) in selected;
      LinkingAttaches(c, s, Join(f, w, level), w, Best(start, selected));
    }
  }

  lemma LinkingStep(c: Config, s: State, f: Forest, w: nat, loaded: Entry) returns (g: Forest)
    requires Structured(c, s) && Hanging(c, s, f) && w < |s.workers| && s.workers[w].Linking?
    ensures Hanging(c, Next(c, s, w, loaded), g)
  {
    var Linking(level, start, selected) := s.workers[w];
    var s' := Next(c, s, w, loaded);
    assert WorkerOk(c, s.entry.level, w, s.workers[w]);
    g := LinkingForest(f, w, level, Best(start, selected));
    LinkingForestOk(c, s, f, w);
    forall x | x in selected
      ensures Bond(s', g, level, w, x)
    {
      SelectionAside(c, s, f, w, x);
      LinkingBond(c, s, f, w, x, s', g);
    }
    LinkingWorker(c, s, f, w, s', g);
    LinkingLists(c, s, w, loaded, g);
    MoveOnly(c, s, g, w, BackLinking(level, start, selected, 0), s');
  }

  lemma LinkingLists(c: Config, s: State, w: nat, loaded: Entry, g: Forest)
    requires Structured(c, s) && w < |s.workers| && s.workers[w].Linking? && LinksOk(s, g)
    requires forall x | x in s.workers[w].selected :: Bond(Next(c, s, w, loaded), g, s.workers[w].level, w, x)
    ensures var s' := Next(c, s, w, loaded);
            forall p: nat, l: nat, x: nat | (p, l) in s'.lists && x in s'.lists[(p, l)] ::
              Bond(s, g, l, p, x) || Bond(s', g, l, p, x)
  {
    var Linking(level, start, selected) := s.workers[w];
    var s' := Next(c, s, w, loaded);
    assert WorkerOk(c, s.entry.level, w, s.workers[w]);
    assert (w, level) in s.lists;
    LinkedShape(c, w, level, s.lists[(w, level)], selected);
    forall p: nat, l: nat, x: nat | (p, l) in s'.lists && x in s'.lists[(p, l)]
      ensures Bond(s, g, l, p, x) || Bond(s', g, l, p, x)
    {
      assert (p, l) != (w, level) || x !in selected ==> x in s.lists[(p, l)];
    }
  }

  lemma LinkingWorker(c: Config, s: State, f: Forest, w: nat, s': State, g: Forest)
    requires Hanging(c, s, f) && w < |s.workers| && s.workers[w].Linking?
    requires g == LinkingForest(f, w, s.workers[w].level, Best(s.workers[w].start, s.workers[w].selected))
    requires forall x | x in s.workers[w].selected :: Bond(s', g, s.workers[w].level, w, x)
    ensures var Linking(level, start, selected) := s.workers[w];
            WorkerLinked(c, s', g, w, BackLinking(level, start, selected, 0))
  {
    assert WorkerLinked(c, s, f, w, s.workers[w]);
  }

  lemma LinkingBond(c: Config, s: State, f: Forest, w: nat, x: nat, s': State, g: Forest)
    requires Structured(c, s) && Hanging(c, s, f) && w < |s.workers| && s.workers[w].Linking?
    requires x in s.workers[w].selected && x != w
    requires var Linking(level, start, selected) := s.workers[w];
             && s'.workers == s.workers[w := BackLinking(level, start, selected, 0)]
             && g == LinkingForest(f, w, level, Best(start, selected))
    ensures Bond(s', g, s.workers[w].level, w, x)
  {
    var Linking(level, start, selected) := s.workers[w];
    assert WorkerLinked(c, s, f, w, s.workers[w]);
    assert Reached(s, f, level, start, x);
    forall u: nat | Pending(s', u, level)
      ensures g.below(level, w, u) <==> g.below(level, x, u)
    {
      assert u != w && Pending(s, u, level);
      assert f.below(level, start, u) <==> f.below(level, x, u);
      assert f.below(level, w, start);
    }
  }

  lemma BondSymmetric(s: State, f: Forest, l: nat, p: nat, x: nat)
    requires Bond(s, f, l, p, x)
    ensures Bond(s, f, l, x, p)
  {
  }

  lemma BackLinkLists(c: Config, s: State, f: Forest, w: nat, other: nat, level: nat, s': State)
    requires LinksOk(s, f) && Bond(s, f, level, other, w)
    requires (other, level) in s.lists && ListOk(c, level, s.lists[(other, level)]) && HasLevel(c, w, level)
    requires s'.lists == s.lists[(other, level) := Linked(c, other, level, s.lists[(other, level)], [w])]
    ensures forall p: nat, l: nat, x: nat | (p, l) in s'.lists && x in s'.lists[(p, l)] :: Bond(s, f, l, p, x)
  {
    LinkedShape(c, other, level, s.lists[(other, level)], [w]);
    forall p: nat, l: nat, x: nat | (p, l) in s'.lists && x in s'.lists[(p, l)]
      ensures Bond(s, f, l, p, x)
    {
      if (p, l) != (other, level) || x != w {
        assert x in s.lists[(p, l)];
      }
    }
  }

  /** The back link: the insertion enters a selected point's list. */
  lemma BackLinkStep(c: Config, s: State, f: Forest, w: nat, s': State)
    requires Hanging(c, s, f) && w < |s.workers| && s.workers[w].BackLinking?
    requires s.workers[w].next < |s.workers[w].selected|
    requires s'.workers == s.workers[w := s.workers[w].(next := s.workers[w].next + 1)]
    requires s'.entry == s.entry && s'.past == s.past
    requires var (other, level) := (s.workers[w].selected[s.workers[w].next], s.workers[w].level);
             && (other, level) in s.lists && ListOk(c, level, s.lists[(other, level)]) && HasLevel(c, w, level)
             && s'.lists == s.lists[(other, level) := Linked(c, other, level, s.lists[(other, level)], [w])]
    ensures Hanging(c, s', f)
  {
    var BackLinking(level, start, selected, next) := s.workers[w];
    var other := selected[next];
    assert WorkerLinked(c, s, f, w, s.workers[w]);
    assert Bond(s, f, level, w, other);
    BondSymmetric(s, f, level, w, other);
    BackLinkLists(c, s, f, w, other, level, s');
    BackLinkWorker(c, s, f, w);
    BackLinkMoves(c, s, f, w, s');
  }

  lemma BackLinkMoves(c: Config, s: State, f: Forest, w: nat, s': State)
    requires Hanging(c, s, f) && w < |s.workers| && s.workers[w].BackLinking?
    requires s'.workers == s.workers[w := s.workers[w].(next := s.workers[w].next + 1)]
    requires s'.entry == s.entry && s'.past == s.past
    requires WorkerLinked(c, s, f, w, s.workers[w].(next := s.workers[w].next + 1))
    requires forall p: nat, l: nat, x: nat | (p, l) in s'.lists && x in s'.lists[(p, l)] :: Bond(s, f, l, p, x)
    ensures Hanging(c, s', f)
  {
    MoveOnly(c, s, f, w, s.workers[w].(next := s.workers[w].next + 1), s');
  }

  lemma BackLinkWorker(c: Config, s: State, f: Forest, w: nat)
    requires w < |s.workers| && s.workers[w].BackLinking? && WorkerLinked(c, s, f, w, s.workers[w])
    ensures WorkerLinked(c, s, f, w, s.workers[w].(next := s.workers[w].next + 1))
  {
  }

  lemma NextLevelStep(c: Config, s: State, f: Forest, w: nat, loaded: Entry)
    requires Structured(c, s) && Hanging(c, s, f) && w < |s.workers| && s.workers[w].BackLinking?
    requires s.workers[w].next >= |s.workers[w].selected|
    ensures Hanging(c, Next(c, s, w, loaded), f)
  {
    var BackLinking(level, start, selected, next) := s.workers[w];
    var s' := Next(c, s, w, loaded);
    assert WorkerLinked(c, s, f, w, s.workers[w]);
    assert WorkerOk(c, s.entry.level, w, s.workers[w]);
    NextLevelWorker(c, s, f, w);
    MoveOnly(c, s, f, w, AfterLevel(level, Best(start, selected)), s');
  }

  lemma NextLevelWorker(c: Config, s: State, f: Forest, w: nat)
    requires JoinedOk(c, f) && w < |s.workers| && s.workers[w].BackLinking? && s.workers[w].selected != []
    requires WorkerLinked(c, s, f, w, s.workers[w])
    ensures var BackLinking(level, start, selected, next) := s.workers[w];
            WorkerLinked(c, s, f, w, AfterLevel(level, Best(start, selected)))
  {
    var BackLinking(level, start, selected, next) := s.workers[w];
    assert Bond(s, f, level, w, selected[0]);
    assert level > 0 ==> Reached(s, f, level - 1, selected[0], selected[0]);
  }

  /** On a level its point has never been visible above, a finished insertion hangs only below an
      old entry point of that level, which hangs below nothing. */
  lemma FreshEntryAside(c: Config, s: State, f: Forest, w: nat, l: nat, u: nat)
    requires Hanging(c, s, f) && w < |s.workers| && s.workers[w] == Done
    requires HasLevel(c, w, l + 1) && (w, l + 1) !in f.joined && Pending(s, u, l + 1)
    ensures !f.below(l, w, u)
  {
    if (l, w) in f.parent {
      var e := Entry(f.parent[(l, w)], l);
      assert IsPastEntry(s, e.point, l);
      assert s.workers[e.point] == Done && (e.level, e.point) !in f.parent;
      assert u != w && u != e.point;
      assert !f.below(l, e.point, u);
    }
  }

  /** A point that has finished can join the forest on all its levels. */
  lemma FinishedJoins(c: Config, s: State, f: Forest, w: nat, level: nat)
    requires Hanging(c, s, f) && w < |s.workers| && s.workers[w] == Done && HasLevel(c, w, level)
    ensures Hanging(c, s, Join(f, w, level))
  {
    forall l: nat, u: nat | l < level && Pending(s, u, l + 1) && (w, l + 1) !in f.joined
      ensures !f.below(l, w, u)
    {
      FreshEntryAside(c, s, f, w, l, u);
    }
    JoinKeepsHanging(c, s, f, w, level);
  }

  /** Publishing a point as the entry changes nothing else, once it is in the forest. */
  lemma EntryRaised(c: Config, s: State, s': State, f: Forest, e: Entry)
    requires Hanging(c, s, f) && s' == s.(entry := e, past := s.past + {e})
    requires EntriesOk(c, s', f)
    ensures Hanging(c, s', f)
  {
    forall u: nat | u < |s'.workers|
      ensures WorkerLinked(c, s', f, u, s'.workers[u])
    {
      ShrinkKeepsWorker(c, s, s', f, u, s.workers[u]);
    }
    ShrinkKeepsLinks(s, s', f);
  }

  lemma RaisedEntriesOk(c: Config, s: State, f: Forest, w: nat, level: nat)
    requires Hanging(c, s, f) && w < |s.workers| && s.workers[w] == Done && level > s.entry.level
    ensures EntriesOk(c, s.(entry := Entry(w, level), past := s.past + {Entry(w, level)}), Join(f, w, level))
  {
    var s', g := s.(entry := Entry(w, level), past := s.past + {Entry(w, level)}), Join(f, w, level);
    forall l: nat, u: nat | (l, u) in g.parent
      ensures l <= s'.entry.level
      ensures (u, l + 1) in g.joined || !HasLevel(c, u, l + 1) || IsPastEntry(s', g.parent[(l, u)], l)
    {
      assert (u, l + 1) in f.joined || !HasLevel(c, u, l + 1) || IsPastEntry(s, f.parent[(l, u)], l);
    }
  }

  lemma ReleaseHangs(c: Config, s: State, f: Forest, w: nat)
    requires Hanging(c, s, f) && w < |s.workers| && s.workers[w].Storing?
    ensures Hanging(c, Set(s, w, Done).(lock := Free), f)
  {
    MoveOnly(c, s, f, w, Done, Set(s, w, Done).(lock := Free));
  }

  lemma StoringNext(c: Config, s: State, w: nat, loaded: Entry)
    requires Structured(c, s) && w < |s.workers| && s.workers[w].Storing?
    ensures var released, e := Set(s, w, Done).(lock := Free), Entry(w, c.levels[w]);
            Next(c, s, w, loaded) ==
            if c.levels[w] > s.entry.level then released.(entry := e, past := released.past + {e}) else released
  {
    assert s.workers[w].seen == s.entry.level;
  }

  lemma StoringStep(c: Config, s: State, f: Forest, w: nat, loaded: Entry) returns (g: Forest)
    requires Structured(c, s) && Hanging(c, s, f) && w < |s.workers| && s.workers[w].Storing?
    ensures Hanging(c, Next(c, s, w, loaded), g)
  {
    StoringNext(c, s, w, loaded);
    ReleaseHangs(c, s, f, w);
    g := f;
    if c.levels[w] > s.entry.level {
      g := Join(f, w, c.levels[w]);
      PromotionHangs(c, Set(s, w, Done).(lock := Free), f, w, c.levels[w]);
    }
  }

  lemma PromotionHangs(c: Config, s: State, f: Forest, w: nat, level: nat)
    requires Hanging(c, s, f) && w < |s.workers| && s.workers[w] == Done
    requires HasLevel(c, w, level) && level > s.entry.level
    ensures Hanging(c, s.(entry := Entry(w, level), past := s.past + {Entry(w, level)}), Join(f, w, level))
  {
    FinishedJoins(c, s, f, w, level);
    RaisedEntriesOk(c, s, f, w, level);
    EntryRaised(c, s, s.(entry := Entry(w, level), past := s.past + {Entry(w, level)}), Join(f, w, level), Entry(w, level));
  }

  lemma BackLinkNext(c: Config, s: State, w: nat, loaded: Entry)
    requires w < |s.workers| && |s.workers| == |c.levels| && s.workers[w].BackLinking?
    requires s.workers[w].next < |s.workers[w].selected|
    requires (s.workers[w].selected[s.workers[w].next], s.workers[w].level) in s.lists
    ensures var s' := Next(c, s, w, loaded);
            var (other, level) := (s.workers[w].selected[s.workers[w].next], s.workers[w].level);
            && s'.workers == s.workers[w := s.workers[w].(next := s.workers[w].next + 1)]
            && s'.entry == s.entry && s'.past == s.past
            && s'.lists == s.lists[(other, level) := Linked(c, other, level, s.lists[(other, level)], [w])]
  {
  }

  lemma BackLinkingStep(c: Config, s: State, f: Forest, w: nat, loaded: Entry)
    requires Structured(c, s) && Hanging(c, s, f) && w < |s.workers| && s.workers[w].BackLinking?
    ensures Hanging(c, Next(c, s, w, loaded), f)
  {
    var BackLinking(level, start, selected, next) := s.workers[w];
    if next < |selected| {
      assert WorkerOk(c, s.entry.level, w, s.workers[w]);
      assert (selected[next], level) in s.lists;
      BackLinkNext(c, s, w, loaded);
      BackLinkStep(c, s, f, w, Next(c, s, w, loaded));
    } else {
      NextLevelStep(c, s, f, w, loaded);
    }
  }

  /** Steps on the entry state and its lock alone. */
  lemma QuietStep(c: Config, s: State, f: Forest, w: nat, loaded: Entry)
    requires Hanging(c, s, f) && w < |s.workers| && |s.workers| == |c.levels|
    requires s.workers[w].Checking? || s.workers[w].Acquiring? || s.workers[w].Holding? || s.workers[w].Done?
    ensures Hanging(c, Next(c, s, w, loaded), f)
  {
    var s' := Next(c, s, w, loaded);
    MoveOnly(c, s, f, w, s'.workers[w], s');
  }

  lemma StepKeepsHanging(c: Config, s: State, f: Forest, w: nat, loaded: Entry) returns (g: Forest)
    requires Structured(c, s) && Hanging(c, s, f) && w < |s.workers|
    ensures Hanging(c, Next(c, s, w, loaded), g)
  {
    g := f;
    assert WorkerOk(c, s.entry.level, w, s.workers[w]);
    if s.workers[w].Waiting? {
      g := WaitingStep(c, s, f, w, loaded);
    } else if s.workers[w].Descending? {
      g := DescendingStep(c, s, f, w, loaded);
    } else if s.workers[w].Searching? {
      SearchingStep(c, s, f, w, loaded);
    } else if s.workers[w].Linking? {
      g := LinkingStep(c, s, f, w, loaded);
    } else if s.workers[w].BackLinking? {
      BackLinkingStep(c, s, f, w, loaded);
    } else if s.workers[w].Storing? {
      g := StoringStep(c, s, f, w, loaded);
    } else {
      QuietStep(c, s, f, w, loaded);
    }
  }

  ghost function InitForest(c: Config): Forest
    requires |c.levels| > 0
  {
    Join(Forest((l: nat, x: nat, a: nat) => x == a, map[], {}), 0, c.levels[0])
  }

  lemma InitHangs(c: Config)
    requires |c.levels| > 0
    ensures Hanging(c, Init(c), InitForest(c))
  {
    var s, f := Init(c), InitForest(c);
    assert OrderOk(f) && ParentsOk(f) && JoinedOk(c, f);
    forall u: nat | u < |s.workers|
      ensures WorkerLinked(c, s, f, u, s.workers[u])
    {
    }
    assert LinksOk(s, f);
  }

  lemma RunOneHangs(c: Config, s: State, f: Forest, choice: Choice) returns (g: Forest)
    requires Structured(c, s) && Hanging(c, s, f)
    ensures Hanging(c, RunOne(c, s, choice), g)
  {
    g := f;
    if choice.worker < |s.workers| {
      g := StepKeepsHanging(c, s, f, choice.worker, choice.loaded);
    }
  }

  lemma {:induction false} EveryRunHangs(c: Config, schedule: seq<Choice>) returns (f: Forest)
    requires |c.levels| > 0
    ensures Hanging(c, Run(c, schedule), f)
    decreases |schedule|
  {
    if schedule == [] {
      f := InitForest(c);
      InitHangs(c);
    } else {
      var last := |schedule| - 1;
      f := EveryRunHangs(c, schedule[..last]);
      EveryRunStructured(c, schedule[..last]);
      f := RunOneHangs(c, Run(c, schedule[..last]), f, schedule[last]);
    }
  }

  /** In every interleaving, at every moment, no point is in its own neighbour list on any level. */
  lemma NoSelfLoops(c: Config, schedule: seq<Choice>)
    requires |c.levels| > 0
    ensures forall p: nat, l: nat | (p, l) in Run(c, schedule).lists :: p !in Run(c, schedule).lists[(p, l)]
  {
    var f := EveryRunHangs(c, schedule);
    var s := Run(c, schedule);
    forall p: nat, l: nat | (p, l) in s.lists
      ensures p !in s.lists[(p, l)]
    {
      assert !Bond(s, f, l, p, p);
    }
  }
}
