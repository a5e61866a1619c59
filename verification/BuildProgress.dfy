/** The parallel build always finishes: no schedule can take more than a bounded number of steps that
    change anything, and as long as some worker is not done a step that changes something exists. */
module BuildProgress {
  import opened Distances
  import opened Pruning
  import opened Beams
  import opened VectorSearch
  import opened ParallelBuild

  function Highest(levels: seq<nat>): (h: nat)
    ensures forall i | 0 <= i < |levels| :: levels[i] <= h
  {
    if levels == [] then 0
    else
      var last := |levels| - 1;
      Max(Highest(levels[..last]), levels[last])
  }

  /** Phases a worker goes through, later ones lower. */
  ghost function Phase(c: Config, wk: Worker): nat {
    var h := Highest(c.levels) + 1;
    match wk
    case Waiting => 5 + 4 * h
    case Descending(level, _) => 5 + 3 * h + level
    case Searching(level, _, _) => 7 + 3 * level
    case Linking(level, _, _) => 6 + 3 * level
    case BackLinking(level, _, _, _) => 5 + 3 * level
    case Checking => 4
    case Acquiring => 3
    case Holding => 2
    case Storing(_) => 1
    case Done => 0
    case Panicked => 0
  }

  /** What is left to do within a phase: closer points, pops, or back links. */
  ghost function Within(c: Config, w: nat, wk: Worker): int {
    match wk
    case Descending(_, current) => CloserCount(|c.levels|, Metric(c, w), current)
    case Searching(_, _, beam) => Work(|c.levels|, beam)
    case BackLinking(_, _, selected, next) => if next < |selected| then |selected| - next else 0
    case _ => 0
  }

  /** More than a phase can ever hold. */
  ghost function Base(c: Config): nat {
    2 * |c.levels| + 1
  }

  ghost function Rank(c: Config, w: nat, wk: Worker): int {
    Times(Phase(c, wk), Base(c)) + Within(c, w, wk)
  }

  /** `phase` many bases. */
  ghost function Times(phase: nat, base: nat): nat {
    if phase == 0 then 0 else base + Times(phase - 1, base)
  }

  lemma InRangeCount(n: nat, s: set<nat>)
    requires forall p | p in s :: p < n
    ensures |s| <= n
  {
    assert s <= Below(n);
    SubsetCount(s, Below(n));
  }

  lemma WithinBounds(c: Config, top: nat, w: nat, wk: Worker)
    requires w < |c.levels| && WorkerOk(c, top, w, wk)
    ensures 0 <= Within(c, w, wk) < Base(c)
  {
    var n := |c.levels|;
    match wk
    case Descending(_, current) =>
      InRangeCount(n, set q: nat | q < n && Closer(Metric(c, w)(q), Metric(c, w)(current)));
    case Searching(_, _, beam) =>
      InRangeCount(n, beam.visited);
      SubsetCount(beam.candidates, beam.visited);
    case BackLinking(_, _, selected, _) =>
      MembersCount(selected);
      InRangeCount(n, Members(selected));
    case _ =>
  }

  lemma {:induction false} LowerPhase(base: nat, p: nat, q: nat)
    requires p < q
    ensures Times(p, base) + base <= Times(q, base)
    decreases q
  {
    if p < q - 1 {
      LowerPhase(base, p, q - 1);
    }
  }

  lemma {:induction false} VisitAllWork(d: nat -> Dist, ef: nat, n: nat, b: Beam, list: seq<nat>)
    requires ef >= 1
    ensures Work(n, VisitAll(d, ef, EVERYWHERE, b, list)) <= Work(n, b)
  {
    if list != [] {
      var last := |list| - 1;
      VisitAllWork(d, ef, n, b, list[..last]);
      VisitWork(d, ef, EVERYWHERE, n, VisitAll(d, ef, EVERYWHERE, b, list[..last]), list[last]);
    }
  }

  /** The worker is in a later phase, or has less to do in the same one. */
  ghost predicate Nearer(c: Config, w: nat, wk: Worker, than: Worker) {
    Phase(c, wk) < Phase(c, than) ||
    (Phase(c, wk) == Phase(c, than) && Within(c, w, wk) < Within(c, w, than))
  }

  lemma PopWork(n: nat, b: Beam, p: nat)
    requires p in b.candidates
    ensures Work(n, b.(candidates := b.candidates - {p})) < Work(n, b)
  {
  }

  /** Expanding the nearest candidate leaves less to do. */
  lemma ExpandingLowers(d: nat -> Dist, ef: nat, n: nat, beam: Beam, near: nat, list: seq<nat>)
    requires ef >= 1 && near in beam.candidates
    ensures Work(n, VisitAll(d, ef, EVERYWHERE, beam.(candidates := beam.candidates - {near}), list)) < Work(n, beam)
  {
    PopWork(n, beam, near);
    VisitAllWork(d, ef, n, beam.(candidates := beam.candidates - {near}), list);
  }

  lemma CandidateListed(c: Config, s: State, w: nat, level: nat, start: nat, beam: Beam)
    requires Structured(c, s) && w < |s.workers| && s.workers[w] == Searching(level, start, beam)
    requires !StopsPlain(Metric(c, w), beam)
    ensures var near := Nearest(Metric(c, w), beam.candidates);
            near in beam.candidates && (near, level) in s.lists && InRange(c, s.lists[(near, level)])
  {
    assert WorkerOk(c, s.entry.level, w, s.workers[w]);
    var near := Nearest(Metric(c, w), beam.candidates);
    assert (near, level) in s.lists;
    assert ListOk(c, level, s.lists[(near, level)]);
  }

  lemma SearchLowers(c: Config, s: State, w: nat, level: nat, start: nat, beam: Beam)
    requires Structured(c, s) && w < |s.workers| && s.workers[w] == Searching(level, start, beam)
    ensures Nearer(c, w, SearchStep(c, s, w, level, start, beam), s.workers[w])
  {
    var d := Metric(c, w);
    if !StopsPlain(d, beam) {
      CandidateListed(c, s, w, level, start, beam);
      var near := Nearest(d, beam.candidates);
      ExpandingStep(c, s, w, level, start, beam, near);
      ExpandingLowers(d, Ef(c), |c.levels|, beam, near, s.lists[(near, level)]);
      var b := VisitAll(d, Ef(c), EVERYWHERE, beam.(candidates := beam.candidates - {near}), s.lists[(near, level)]);
      LessToSearch(c, w, level, start, beam, b);
    }
  }

  lemma LessToSearch(c: Config, w: nat, level: nat, start: nat, b: Beam, b': Beam)
    requires Work(|c.levels|, b') < Work(|c.levels|, b)
    ensures Nearer(c, w, Searching(level, start, b'), Searching(level, start, b))
  {
  }

  lemma ExpandingStep(c: Config, s: State, w: nat, level: nat, start: nat, beam: Beam, near: nat)
    requires !StopsPlain(Metric(c, w), beam) && near == Nearest(Metric(c, w), beam.candidates)
    requires (near, level) in s.lists && InRange(c, s.lists[(near, level)])
    ensures SearchStep(c, s, w, level, start, beam) ==
            Searching(level, start, VisitAll(Metric(c, w), Ef(c), EVERYWHERE,
                                             beam.(candidates := beam.candidates - {near}), s.lists[(near, level)]))
  {
  }

  lemma DescentLowers(c: Config, s: State, w: nat, level: nat, current: nat)
    requires Structured(c, s) && w < |s.workers| && s.workers[w] == Descending(level, current)
    ensures Nearer(c, w, DescendStep(c, s, w, level, current), s.workers[w])
  {
    assert WorkerOk(c, s.entry.level, w, s.workers[w]);
    assert (current, level) in s.lists;
    var list := s.lists[(current, level)];
    assert ListOk(c, level, list);
    var best := GreedyBest(Metric(c, w), list, current);
    GreedyBestIsClosest(Metric(c, w), list, current);
    if best != current {
      CloserCountDrops(|c.levels|, Metric(c, w), current, best);
    }
  }

  lemma StepNearer(c: Config, s: State, w: nat, loaded: Entry)
    requires Structured(c, s) && w < |s.workers| && Next(c, s, w, loaded) != s
    ensures Nearer(c, w, Next(c, s, w, loaded).workers[w], s.workers[w])
  {
    assert WorkerOk(c, s.entry.level, w, s.workers[w]);
    match s.workers[w]
    case Searching(level, start, beam) => SearchLowers(c, s, w, level, start, beam);
    case Descending(level, current) => DescentLowers(c, s, w, level, current);
    case Waiting =>
      assert loaded in s.past && loaded.level <= Highest(c.levels);
    case Linking(_, _, _) => LinkingNearer(c, s, w, loaded);
    case BackLinking(_, _, _, _) => LinkingNearer(c, s, w, loaded);
    case _ =>
  }

  lemma LinkingNearer(c: Config, s: State, w: nat, loaded: Entry)
    requires Structured(c, s) && w < |s.workers| && (s.workers[w].Linking? || s.workers[w].BackLinking?)
    ensures Nearer(c, w, Next(c, s, w, loaded).workers[w], s.workers[w])
  {
    var wk := LinkingMove(c, s, w, loaded);
    LinkingMoveNearer(c, w, s.workers[w], wk);
  }

  lemma LinkingMoveNearer(c: Config, w: nat, than: Worker, wk: Worker)
    requires than.Linking? || than.BackLinking?
    requires wk == match than
                   case Linking(level, start, selected) => BackLinking(level, start, selected, 0)
                   case BackLinking(level, start, selected, next) =>
                     if next < |selected| then BackLinking(level, start, selected, next + 1)
                     else AfterLevel(level, Best(start, selected))
    ensures Nearer(c, w, wk, than)
  {
    AfterLevelPhase(c, than);
  }

  lemma LinkingMove(c: Config, s: State, w: nat, loaded: Entry) returns (wk: Worker)
    requires Structured(c, s) && w < |s.workers| && (s.workers[w].Linking? || s.workers[w].BackLinking?)
    ensures wk == Next(c, s, w, loaded).workers[w]
    ensures wk == match s.workers[w]
                  case Linking(level, start, selected) => BackLinking(level, start, selected, 0)
                  case BackLinking(level, start, selected, next) =>
                    if next < |selected| then BackLinking(level, start, selected, next + 1)
                    else AfterLevel(level, Best(start, selected))
  {
    wk := Next(c, s, w, loaded).workers[w];
    assert WorkerOk(c, s.entry.level, w, s.workers[w]);
    if s.workers[w].Linking? {
      assert (w, s.workers[w].level) in s.lists;
    } else if s.workers[w].next < |s.workers[w].selected| {
      assert (s.workers[w].selected[s.workers[w].next], s.workers[w].level) in s.lists;
    }
  }

  lemma AfterLevelPhase(c: Config, wk: Worker)
    requires wk.Linking? || wk.BackLinking?
    ensures Phase(c, AfterLevel(wk.level, Best(wk.start, wk.selected))) < Phase(c, wk)
  {
  }

  lemma OneWorkerMoves(c: Config, s: State, w: nat, loaded: Entry)
    requires w < |s.workers| && |s.workers| == |c.levels|
    ensures Next(c, s, w, loaded).workers == s.workers[w := Next(c, s, w, loaded).workers[w]]
  {
  }

  /** A step that changes the state brings its worker strictly nearer to being done. */
  lemma StepLowers(c: Config, s: State, w: nat, loaded: Entry)
    requires Structured(c, s) && w < |s.workers| && Next(c, s, w, loaded) != s
    ensures 0 <= Rank(c, w, Next(c, s, w, loaded).workers[w]) < Rank(c, w, s.workers[w])
  {
    StepNearer(c, s, w, loaded);
    StepKeepsWorker(c, s, w, loaded);
    assert WorkerOk(c, s.entry.level, w, s.workers[w]);
    RankLower(c, s.entry.level, Next(c, s, w, loaded).entry.level, w,
              Next(c, s, w, loaded).workers[w], s.workers[w]);
  }

  lemma RankLower(c: Config, top: nat, top': nat, w: nat, wk: Worker, than: Worker)
    requires w < |c.levels| && WorkerOk(c, top, w, than) && WorkerOk(c, top', w, wk)
    requires Nearer(c, w, wk, than)
    ensures 0 <= Rank(c, w, wk) < Rank(c, w, than)
  {
    WithinBounds(c, top, w, than);
    WithinBounds(c, top', w, wk);
    DigitsOrder(Base(c), Phase(c, wk), Within(c, w, wk), Phase(c, than), Within(c, w, than));
  }

  lemma DigitsOrder(base: nat, p: nat, x: int, q: nat, y: int)
    requires 0 <= x < base && 0 <= y < base && (p < q || (p == q && x < y))
    ensures 0 <= Times(p, base) + x < Times(q, base) + y
  {
    if p < q {
      LowerPhase(base, p, q);
    }
  }

  ghost function Total(c: Config, workers: seq<Worker>): int {
    if workers == [] then 0
    else
      var last := |workers| - 1;
      Total(c, workers[..last]) + Rank(c, last, workers[last])
  }

  lemma {:induction false} TotalUpdate(c: Config, workers: seq<Worker>, w: nat, wk: Worker)
    requires w < |workers|
    ensures Total(c, workers[w := wk]) == Total(c, workers) - Rank(c, w, workers[w]) + Rank(c, w, wk)
    decreases |workers|
  {
    var last := |workers| - 1;
    if w < last {
      TotalUpdate(c, workers[..last], w, wk);
      assert workers[w := wk][..last] == workers[..last][w := wk];
    } else {
      assert workers[w := wk][..last] == workers[..last];
    }
  }

  lemma {:induction false} TotalNonNegative(c: Config, top: nat, workers: seq<Worker>)
    requires |workers| <= |c.levels|
    requires forall w | 0 <= w < |workers| :: WorkerOk(c, top, w, workers[w])
    ensures Total(c, workers) >= 0
    decreases |workers|
  {
    if workers != [] {
      var last := |workers| - 1;
      TotalNonNegative(c, top, workers[..last]);
      WithinBounds(c, top, last, workers[last]);
    }
  }

  /** Every choice in the schedule changed the state when its turn came. */
  ghost predicate Effective(c: Config, schedule: seq<Choice>)
    requires |c.levels| > 0
  {
    forall k | 0 <= k < |schedule| :: Changes(c, schedule[..k], schedule[k])
  }

  ghost predicate Changes(c: Config, before: seq<Choice>, choice: Choice)
    requires |c.levels| > 0
  {
    RunOne(c, Run(c, before), choice) != Run(c, before)
  }

  lemma EffectivePrefix(c: Config, schedule: seq<Choice>)
    requires |c.levels| > 0 && schedule != [] && Effective(c, schedule)
    ensures Effective(c, schedule[..|schedule| - 1])
  {
    var prefix := schedule[..|schedule| - 1];
    forall k | 0 <= k < |prefix|
      ensures Changes(c, prefix[..k], prefix[k])
    {
      assert prefix[..k] == schedule[..k];
      assert Changes(c, schedule[..k], schedule[k]);
    }
  }

  lemma {:induction false} EffectiveLowersTotal(c: Config, schedule: seq<Choice>)
    requires |c.levels| > 0 && Effective(c, schedule)
    ensures |schedule| + Total(c, Run(c, schedule).workers) <= Total(c, Init(c).workers)
    decreases |schedule|
  {
    if schedule != [] {
      var last := |schedule| - 1;
      EffectivePrefix(c, schedule);
      assert Changes(c, schedule[..last], schedule[last]);
      EffectiveLowersTotal(c, schedule[..last]);
      LastLowersTotal(c, schedule);
    }
  }

  lemma LastLowersTotal(c: Config, schedule: seq<Choice>)
    requires |c.levels| > 0 && schedule != []
    requires Changes(c, schedule[..|schedule| - 1], schedule[|schedule| - 1])
    ensures Total(c, Run(c, schedule).workers) < Total(c, Run(c, schedule[..|schedule| - 1]).workers)
  {
    var last := |schedule| - 1;
    var s := Run(c, schedule[..last]);
    EveryRunStructured(c, schedule[..last]);
    var choice := schedule[last];
    OneWorkerMoves(c, s, choice.worker, choice.loaded);
    StepLowers(c, s, choice.worker, choice.loaded);
    TotalUpdate(c, s.workers, choice.worker, Next(c, s, choice.worker, choice.loaded).workers[choice.worker]);
  }

  /** No interleaving runs forever: the number of effective steps is bounded from the start. */
  lemma RunsAreBounded(c: Config, schedule: seq<Choice>)
    requires |c.levels| > 0 && Effective(c, schedule)
    ensures |schedule| <= Total(c, Init(c).workers)
  {
    EffectiveLowersTotal(c, schedule);
    EveryRunStructured(c, schedule);
    TotalNonNegative(c, Run(c, schedule).entry.level, Run(c, schedule).workers);
  }

  /** No interleaving gets stuck: until every worker is done, some worker has an effective step,
      the holder of the promotion lock if the unfinished one waits for it. */
  lemma NeverStuck(c: Config, schedule: seq<Choice>, w: nat) returns (choice: Choice)
    requires |c.levels| > 0 && w < |c.levels| && Run(c, schedule).workers[w] != Done
    ensures Changes(c, schedule, choice)
  {
    var s := Run(c, schedule);
    EveryRunStructured(c, schedule);
    assert WorkerOk(c, s.entry.level, w, s.workers[w]);
    choice := Choice(w, s.entry);
    if s.workers[w].Acquiring? && s.lock.HeldBy? {
      var v := s.lock.worker;
      if v < |s.workers| {
        assert UsesLock(s.workers[v]) <==> s.lock == HeldBy(v);
        choice := Choice(v, s.entry);
        MovesOn(c, s, v);
      } else {
        LockHolderExists(c, schedule);
      }
    } else {
      MovesOn(c, s, w);
    }
  }

  /** The promotion lock is only ever held by an existing worker. */
  lemma {:induction false} LockHolderExists(c: Config, schedule: seq<Choice>)
    requires |c.levels| > 0
    ensures Run(c, schedule).lock.HeldBy? ==> Run(c, schedule).lock.worker < |c.levels|
    decreases |schedule|
  {
    if schedule != [] {
      LockHolderExists(c, schedule[..|schedule| - 1]);
    }
  }

  lemma MovesOn(c: Config, s: State, w: nat)
    requires Structured(c, s) && w < |s.workers| && s.workers[w] != Done
    requires s.workers[w].Acquiring? ==> s.lock == Free
    ensures Next(c, s, w, s.entry) != s
  {
    var s' := Next(c, s, w, s.entry);
    assert WorkerOk(c, s.entry.level, w, s.workers[w]);
    if s.workers[w].Searching? {
      SearchLowers(c, s, w, s.workers[w].level, s.workers[w].start, s.workers[w].beam);
    } else if s.workers[w].Descending? {
      DescentLowers(c, s, w, s.workers[w].level, s.workers[w].current);
    }
    assert s'.workers[w] != s.workers[w];
  }
}
