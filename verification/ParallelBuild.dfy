/** The parallel graph build as an interleaving of worker steps. Each step is one critical section
    (one list under its lock, one atomic load or store, one use of the promotion lock) together
    with the private work up to the next. */
module ParallelBuild {
  import opened Distances
  import opened Pruning
  import opened Beams
  import opened VectorSearch

  /** The sorted points' levels, the configuration, and the distance between two points. */
  datatype Config = Config(levels: seq<nat>, m: nat, efConstruction: nat, pair: PairDist)

  datatype Entry = Entry(point: nat, level: nat)

  /** Where the worker inserting a point has got to. */
  datatype Worker =
    | Waiting
    | Descending(level: nat, current: nat)
    | Searching(level: nat, start: nat, beam: Beam)
    | Linking(level: nat, start: nat, selected: seq<nat>)
    | BackLinking(level: nat, start: nat, selected: seq<nat>, next: nat)
    | Checking
    | Acquiring
    | Holding
    | Storing(seen: nat)
    | Done
    | Panicked

  datatype Lock = Free | HeldBy(worker: nat)

  /** `past` holds every value the entry state has had: an unordered load may return any of them. */
  datatype State = State(lists: map<(nat, nat), seq<nat>>, entry: Entry, past: set<Entry>,
                         lock: Lock, workers: seq<Worker>)

  datatype Choice = Choice(worker: nat, loaded: Entry)

  // ---- The packed entry state ----

  const WORD := 0x1_0000_0000

  function Pack(e: Entry): nat {
    e.point * WORD + e.level
  }

  function Unpack(bits: nat): Entry {
    Entry(bits / WORD, bits % WORD)
  }

  /** A 64-bit word holds both halves of the entry state, so one load never mixes two stores. */
  lemma PackRoundTrip(e: Entry)
    requires e.point < WORD && e.level < WORD
    ensures Unpack(Pack(e)) == e && Pack(e) < WORD * WORD
  {
  }

  // ---- Steps ----

  function Ef(c: Config): (ef: nat)
    ensures ef >= 1
  {
    if c.efConstruction < 1 then 1 else c.efConstruction
  }

  function Metric(c: Config, w: nat): nat -> Dist {
    From(c.pair, w)
  }

  function AppendMissing(list: seq<nat>, more: seq<nat>): seq<nat>
    decreases |more|
  {
    if more == [] then list
    else AppendMissing(if more[0] in list then list else list + [more[0]], more[1..])
  }

  /** A neighbour list after some links are added: pruned when it has grown too long. */
  function Linked(c: Config, owner: nat, level: nat, list: seq<nat>, more: seq<nat>): seq<nat> {
    var merged := AppendMissing(list, more);
    var cap := MaxNeighbors(c.m, level);
    if |merged| > cap then Pruned(c.pair, owner, merged, cap) else merged
  }

  function SearchFrom(level: nat, start: nat): Worker {
    Searching(level, start, Beams.Start(start, EVERYWHERE))
  }

  function AfterLevel(level: nat, best: nat): Worker {
    if level == 0 then Checking else SearchFrom(level - 1, best)
  }

  function Best(start: nat, selected: seq<nat>): nat {
    if selected == [] then start else selected[0]
  }

  function Set(s: State, w: nat, wk: Worker): State
    requires w < |s.workers|
  {
    s.(workers := s.workers[w := wk])
  }

  predicate InRange(c: Config, list: seq<nat>) {
    forall n | n in list :: n < |c.levels|
  }

  function DescendStep(c: Config, s: State, w: nat, level: nat, current: nat): Worker
    requires w < |c.levels|
  {
    if (current, level) !in s.lists || !InRange(c, s.lists[(current, level)]) then Panicked
    else
      var best := GreedyBest(Metric(c, w), s.lists[(current, level)], current);
      if best != current then Descending(level, best)
      else if level > c.levels[w] + 1 then Descending(level - 1, current)
      else SearchFrom(c.levels[w], current)
  }

  function SearchStep(c: Config, s: State, w: nat, level: nat, start: nat, beam: Beam): Worker {
    var d := Metric(c, w);
    if StopsPlain(d, beam) then
      Linking(level, start, PruneRanked(c.pair, w, Ranked(d, beam.top), MaxNeighbors(c.m, level)))
    else
      var near := Nearest(d, beam.candidates);
      if (near, level) !in s.lists || !InRange(c, s.lists[(near, level)]) then Panicked
      else
        Searching(level, start, VisitAll(d, Ef(c), EVERYWHERE, beam.(candidates := beam.candidates - {near}),
                                         s.lists[(near, level)]))
  }

  /** The next step of the worker inserting point `w`. `loaded` is what an unguarded load of the
      entry state returns in this step, if it performs one. */
  function Next(c: Config, s: State, w: nat, loaded: Entry): State
    requires w < |s.workers| && |s.workers| == |c.levels|
  {
    match s.workers[w]
    case Waiting =>
      if loaded !in s.past then s
      else if loaded.level > c.levels[w] then Set(s, w, Descending(loaded.level, loaded.point))
      else Set(s, w, SearchFrom(loaded.level, loaded.point))
    case Descending(level, current) => Set(s, w, DescendStep(c, s, w, level, current))
    case Searching(level, start, beam) => Set(s, w, SearchStep(c, s, w, level, start, beam))
    case Linking(level, start, selected) =>
      if (w, level) !in s.lists then Set(s, w, Panicked)
      else
        var list := Linked(c, w, level, s.lists[(w, level)], selected);
        Set(s, w, BackLinking(level, start, selected, 0)).(lists := s.lists[(w, level) := list])
    case BackLinking(level, start, selected, next) =>
      if next >= |selected| then Set(s, w, AfterLevel(level, Best(start, selected)))
      else
        var other := selected[next];
        if (other, level) !in s.lists then Set(s, w, Panicked)
        else
          var list := Linked(c, other, level, s.lists[(other, level)], [w]);
          Set(s, w, BackLinking(level, start, selected, next + 1)).(lists := s.lists[(other, level) := list])
    case Checking =>
      if loaded !in s.past then s
      else Set(s, w, if c.levels[w] > loaded.level then Acquiring else Done)
    case Acquiring =>
      if s.lock != Free then s else Set(s, w, Holding).(lock := HeldBy(w))
    case Holding => Set(s, w, Storing(s.entry.level))
    case Storing(seen) =>
      var released := Set(s, w, Done).(lock := Free);
      if c.levels[w] > seen then
        var e := Entry(w, c.levels[w]);
        released.(entry := e, past := s.past + {e})
      else released
    case Done => s
    case Panicked => s
  }

  /** Point 0 is the first entry and is never inserted; every other point has a worker. */
  function Init(c: Config): State
    requires |c.levels| > 0
  {
    var e := Entry(0, c.levels[0]);
    State(EmptyLists(c.levels), e, {e}, Free, seq(|c.levels|, i => if i == 0 then Done else Waiting))
  }

  type Lists = map<(nat, nat), seq<nat>>

  /** One empty list for every level of every point. */
  function EmptyLists(levels: seq<nat>): (lists: Lists)
    ensures forall p: nat, l: nat :: (p, l) in lists <==> p < |levels| && l <= levels[p]
    ensures forall k | k in lists :: lists[k] == []
  {
    if levels == [] then map[]
    else
      var last := |levels| - 1;
      AddEmpty(EmptyLists(levels[..last]), last, levels[last] + 1)
  }

  function AddEmpty(lists: Lists, p: nat, count: nat): (r: Lists)
    ensures forall q: nat, l: nat :: (q, l) in r <==> (q, l) in lists || (q == p && l < count)
    ensures forall k | k in r :: r[k] == [] || (k in lists && r[k] == lists[k])
  {
    if count == 0 then lists else AddEmpty(lists, p, count - 1)[(p, count - 1) := []]
  }

  /** The state after a schedule; a choice of no existing worker changes nothing. */
  function Run(c: Config, schedule: seq<Choice>): (s: State)
    requires |c.levels| > 0
    ensures |s.workers| == |c.levels|
  {
    if schedule == [] then Init(c)
    else
      var last := |schedule| - 1;
      RunOne(c, Run(c, schedule[..last]), schedule[last])
  }

  function RunOne(c: Config, s: State, choice: Choice): (s': State)
    requires |s.workers| == |c.levels|
    ensures |s'.workers| == |c.levels|
  {
    if choice.worker < |s.workers| then Next(c, s, choice.worker, choice.loaded) else s
  }

  // ---- What every interleaving keeps ----

  predicate HasLevel(c: Config, p: nat, level: nat) {
    p < |c.levels| && c.levels[p] >= level
  }

  ghost predicate ListOk(c: Config, level: nat, list: seq<nat>) {
    && |list| <= MaxNeighbors(c.m, level)
    && NoDuplicates(list)
    && forall n | n in list :: HasLevel(c, n, level)
  }

  ghost predicate SelectionOk(c: Config, level: nat, selected: seq<nat>) {
    && selected != [] && NoDuplicates(selected)
    && forall n | n in selected :: HasLevel(c, n, level)
  }

  ghost predicate WorkerOk(c: Config, top: nat, w: nat, wk: Worker)
    requires w < |c.levels|
  {
    match wk
    case Descending(level, current) => HasLevel(c, current, level) && c.levels[w] < level <= top
    case Searching(level, start, beam) =>
      && level <= c.levels[w] && start in beam.visited && beam.top != {}
      && KeepsBest(Metric(c, w), Ef(c), EVERYWHERE, beam)
      && (forall v | v in beam.visited :: HasLevel(c, v, level))
    case Linking(level, start, selected) =>
      level <= c.levels[w] && HasLevel(c, start, level) && SelectionOk(c, level, selected)
    case BackLinking(level, start, selected, next) =>
      level <= c.levels[w] && HasLevel(c, start, level) && SelectionOk(c, level, selected)
    case Done => c.levels[w] <= top
    case Panicked => false
    case _ => true
  }

  ghost predicate ListsOk(c: Config, s: State) {
    && (forall p: nat, l: nat :: (p, l) in s.lists <==> HasLevel(c, p, l))
    && (forall p: nat, l: nat | (p, l) in s.lists :: ListOk(c, l, s.lists[(p, l)]))
  }

  ghost predicate EntryOk(c: Config, s: State) {
    && s.entry in s.past
    && forall e | e in s.past ::
         e.point < |c.levels| && c.levels[e.point] == e.level && e.level <= s.entry.level
  }

  predicate UsesLock(wk: Worker) {
    wk.Holding? || wk.Storing?
  }

  ghost predicate LockOk(s: State) {
    forall w | 0 <= w < |s.workers| ::
      && (UsesLock(s.workers[w]) <==> s.lock == HeldBy(w))
      && (s.workers[w].Storing? ==> s.workers[w].seen == s.entry.level)
  }

  ghost predicate Structured(c: Config, s: State) {
    && |s.workers| == |c.levels|
    && ListsOk(c, s) && EntryOk(c, s) && LockOk(s)
    && forall w | 0 <= w < |s.workers| :: WorkerOk(c, s.entry.level, w, s.workers[w])
  }

  lemma {:induction false} AppendMissingShape(c: Config, level: nat, list: seq<nat>, more: seq<nat>)
    requires NoDuplicates(list)
    ensures NoDuplicates(AppendMissing(list, more))
    ensures forall n :: n in AppendMissing(list, more) <==> n in list || n in more
    decreases |more|
  {
    if more != [] {
      AppendMissingShape(c, level, if more[0] in list then list else list + [more[0]], more[1..]);
      assert more == [more[0]] + more[1..];
    }
  }

  lemma LinkedShape(c: Config, owner: nat, level: nat, list: seq<nat>, more: seq<nat>)
    requires ListOk(c, level, list) && forall n | n in more :: HasLevel(c, n, level)
    ensures ListOk(c, level, Linked(c, owner, level, list, more))
    ensures forall n | n in Linked(c, owner, level, list, more) :: n in list || n in more
  {
    AppendMissingShape(c, level, list, more);
    PrunedSelection(c.pair, owner, AppendMissing(list, more), MaxNeighbors(c.m, level));
  }

  /** A selection made from a beam: never empty, distinct points of the beam, nearest first. */
  lemma SelectionShape(c: Config, w: nat, level: nat, top: set<nat>)
    requires top != {}
    ensures var sel := PruneRanked(c.pair, w, Ranked(Metric(c, w), top), MaxNeighbors(c.m, level));
            && sel != [] && NoDuplicates(sel) && |sel| <= MaxNeighbors(c.m, level)
            && (forall n | n in sel :: n in top)
            && (forall n | n in top :: RankLe(Metric(c, w), sel[0], n))
  {
    var list := Ranked(Metric(c, w), top);
    assert Members(list) == top;
    PrunedSelection(c.pair, w, list, MaxNeighbors(c.m, level));
  }

  lemma SearchStepOk(c: Config, s: State, w: nat, level: nat, start: nat, beam: Beam)
    requires Structured(c, s) && w < |s.workers| && s.workers[w] == Searching(level, start, beam)
    ensures WorkerOk(c, s.entry.level, w, SearchStep(c, s, w, level, start, beam))
  {
    var d := Metric(c, w);
    if StopsPlain(d, beam) {
      SelectionShape(c, w, level, beam.top);
    } else {
      var near := Nearest(d, beam.candidates);
      assert HasLevel(c, near, level) && (near, level) in s.lists;
      var list := s.lists[(near, level)];
      assert ListOk(c, level, list);
      var popped := beam.(candidates := beam.candidates - {near});
      VisitAllVisits(d, Ef(c), EVERYWHERE, popped, list);
      VisitAllKeepsBest(d, Ef(c), popped, list);
    }
  }

  lemma {:induction false} VisitAllKeepsBest(d: nat -> Dist, ef: nat, b: Beam, list: seq<nat>)
    requires ef >= 1 && KeepsBest(d, ef, EVERYWHERE, b)
    ensures KeepsBest(d, ef, EVERYWHERE, VisitAll(d, ef, EVERYWHERE, b, list))
    ensures |b.top| <= |VisitAll(d, ef, EVERYWHERE, b, list).top|
  {
    if list != [] {
      var last := |list| - 1;
      VisitAllKeepsBest(d, ef, b, list[..last]);
      VisitKeepsBest(d, ef, EVERYWHERE, VisitAll(d, ef, EVERYWHERE, b, list[..last]), list[last]);
    }
  }

  lemma SearchFromOk(c: Config, top: nat, w: nat, level: nat, start: nat)
    requires w < |c.levels| && level <= c.levels[w] && HasLevel(c, start, level)
    ensures WorkerOk(c, top, w, SearchFrom(level, start))
  {
  }

  lemma DescendStepOk(c: Config, s: State, w: nat, level: nat, current: nat)
    requires Structured(c, s) && w < |s.workers| && s.workers[w] == Descending(level, current)
    ensures WorkerOk(c, s.entry.level, w, DescendStep(c, s, w, level, current))
  {
    assert (current, level) in s.lists;
    var list := s.lists[(current, level)];
    assert ListOk(c, level, list);
    GreedyBestIsClosest(Metric(c, w), list, current);
    if level <= c.levels[w] + 1 {
      SearchFromOk(c, s.entry.level, w, c.levels[w], current);
    }
  }

  /** Replacing one list by a well-formed one keeps the lists well formed. */
  lemma PutList(c: Config, s: State, p: nat, level: nat, list: seq<nat>)
    requires ListsOk(c, s) && (p, level) in s.lists && ListOk(c, level, list)
    ensures ListsOk(c, s.(lists := s.lists[(p, level) := list]))
  {
  }

  lemma StepKeepsWorker(c: Config, s: State, w: nat, loaded: Entry)
    requires Structured(c, s) && w < |s.workers|
    ensures WorkerOk(c, Next(c, s, w, loaded).entry.level, w, Next(c, s, w, loaded).workers[w])
  {
    match s.workers[w]
    case Waiting =>
      if loaded in s.past && loaded.level <= c.levels[w] {
        SearchFromOk(c, s.entry.level, w, loaded.level, loaded.point);
      }
    case Descending(level, current) => DescendStepOk(c, s, w, level, current);
    case Searching(level, start, beam) => SearchStepOk(c, s, w, level, start, beam);
    case BackLinking(level, start, selected, next) =>
      if next >= |selected| && level > 0 {
        assert selected[0] in selected;
        SearchFromOk(c, s.entry.level, w, level - 1, selected[0]);
      } else if next < |selected| {
        assert selected[next] in selected;
      }
    case _ =>
  }

  lemma StepKeepsLists(c: Config, s: State, w: nat, loaded: Entry)
    requires Structured(c, s) && w < |s.workers|
    ensures ListsOk(c, Next(c, s, w, loaded))
  {
    match s.workers[w]
    case Linking(level, start, selected) =>
      if (w, level) in s.lists {
        LinkedShape(c, w, level, s.lists[(w, level)], selected);
        PutList(c, s, w, level, Linked(c, w, level, s.lists[(w, level)], selected));
      }
    case BackLinking(level, start, selected, next) =>
      if next < |selected| && (selected[next], level) in s.lists {
        var other := selected[next];
        LinkedShape(c, other, level, s.lists[(other, level)], [w]);
        PutList(c, s, other, level, Linked(c, other, level, s.lists[(other, level)], [w]));
      }
    case _ =>
  }

  /** A step moves one worker; only the promotion touches the entry state and its lock. */
  lemma StepFrame(c: Config, s: State, w: nat, loaded: Entry)
    requires w < |s.workers| && |s.workers| == |c.levels|
    ensures var s' := Next(c, s, w, loaded);
            && |s'.workers| == |s.workers| && (forall v: nat | v < |s.workers| && v != w :: s'.workers[v] == s.workers[v])
            && (!(s.workers[w].Acquiring? || UsesLock(s.workers[w])) ==>
                  s'.entry == s.entry && s'.past == s.past && s'.lock == s.lock && !UsesLock(s'.workers[w]))
  {
  }

  lemma StepKeepsEntry(c: Config, s: State, w: nat, loaded: Entry)
    requires Structured(c, s) && w < |s.workers|
    ensures EntryOk(c, Next(c, s, w, loaded)) && LockOk(Next(c, s, w, loaded))
    ensures s.entry.level <= Next(c, s, w, loaded).entry.level
    ensures s.past <= Next(c, s, w, loaded).past
  {
    var s' := Next(c, s, w, loaded);
    StepFrame(c, s, w, loaded);
    assert UsesLock(s.workers[w]) <==> s.lock == HeldBy(w);
    if s.workers[w].Acquiring? || UsesLock(s.workers[w]) {
      PromotionKeepsLock(c, s, w, loaded);
    } else {
      QuietKeepsLock(s, s', w);
    }
  }

  lemma PromotionKeepsLock(c: Config, s: State, w: nat, loaded: Entry)
    requires |s.workers| == |c.levels| && w < |s.workers| && LockOk(s)
    requires s.workers[w].Acquiring? || UsesLock(s.workers[w])
    ensures LockOk(Next(c, s, w, loaded))
  {
    var s' := Next(c, s, w, loaded);
    assert UsesLock(s.workers[w]) <==> s.lock == HeldBy(w);
    forall v | 0 <= v < |s'.workers|
      ensures UsesLock(s'.workers[v]) <==> s'.lock == HeldBy(v)
      ensures s'.workers[v].Storing? ==> s'.workers[v].seen == s'.entry.level
    {
      assert UsesLock(s.workers[v]) <==> s.lock == HeldBy(v);
    }
  }

  lemma QuietKeepsLock(s: State, s': State, w: nat)
    requires LockOk(s) && s'.lock == s.lock && s'.entry == s.entry && |s'.workers| == |s.workers|
    requires forall v: nat | v < |s.workers| && v != w :: s'.workers[v] == s.workers[v]
    requires w < |s.workers| && !UsesLock(s.workers[w]) && !UsesLock(s'.workers[w])
    ensures LockOk(s')
  {
    forall v | 0 <= v < |s'.workers|
      ensures UsesLock(s'.workers[v]) <==> s'.lock == HeldBy(v)
      ensures s'.workers[v].Storing? ==> s'.workers[v].seen == s'.entry.level
    {
      assert UsesLock(s.workers[v]) <==> s.lock == HeldBy(v);
    }
  }

  lemma StepKeepsStructure(c: Config, s: State, w: nat, loaded: Entry)
    requires Structured(c, s) && w < |s.workers|
    ensures Structured(c, Next(c, s, w, loaded))
  {
    StepKeepsWorker(c, s, w, loaded);
    StepKeepsLists(c, s, w, loaded);
    StepKeepsEntry(c, s, w, loaded);
    StepFrame(c, s, w, loaded);
    OthersStayOk(c, s, Next(c, s, w, loaded), w);
  }

  lemma OthersStayOk(c: Config, s: State, s': State, w: nat)
    requires Structured(c, s) && |s'.workers| == |s.workers| && s.entry.level <= s'.entry.level
    requires forall v: nat | v < |s.workers| && v != w :: s'.workers[v] == s.workers[v]
    requires w < |s.workers| && WorkerOk(c, s'.entry.level, w, s'.workers[w])
    ensures forall v | 0 <= v < |s'.workers| :: WorkerOk(c, s'.entry.level, v, s'.workers[v])
  {
    forall v | 0 <= v < |s'.workers|
      ensures WorkerOk(c, s'.entry.level, v, s'.workers[v])
    {
      assert WorkerOk(c, s.entry.level, v, s.workers[v]);
    }
  }

  lemma InitStructured(c: Config)
    requires |c.levels| > 0
    ensures Structured(c, Init(c))
  {
    var s := Init(c);
    assert forall p: nat, l: nat :: (p, l) in s.lists <==> HasLevel(c, p, l);
  }

  lemma RunStructured(c: Config, s: State, choice: Choice)
    requires Structured(c, s)
    ensures Structured(c, RunOne(c, s, choice))
    ensures s.entry.level <= RunOne(c, s, choice).entry.level
  {
    if choice.worker < |s.workers| {
      StepKeepsStructure(c, s, choice.worker, choice.loaded);
      StepKeepsEntry(c, s, choice.worker, choice.loaded);
    }
  }

  /** In every interleaving, whenever a list is not locked it has at most its level's capacity of
      members, no duplicates, only existing points, and only points that have that level; the entry
      state names a point of the stored level; and no worker has indexed a missing level. */
  lemma {:induction false} EveryRunStructured(c: Config, schedule: seq<Choice>)
    requires |c.levels| > 0
    ensures Structured(c, Run(c, schedule))
    decreases |schedule|
  {
    if schedule == [] {
      InitStructured(c);
    } else {
      var last := |schedule| - 1;
      EveryRunStructured(c, schedule[..last]);
      RunStructured(c, Run(c, schedule[..last]), schedule[last]);
    }
  }

  lemma LastStepGrows(c: Config, schedule: seq<Choice>)
    requires |c.levels| > 0 && schedule != []
    ensures Run(c, schedule[..|schedule| - 1]).entry.level <= Run(c, schedule).entry.level
  {
    var last := |schedule| - 1;
    EveryRunStructured(c, schedule[..last]);
    RunStructured(c, Run(c, schedule[..last]), schedule[last]);
  }

  /** The stored maximum never decreases along a run. */
  lemma {:induction false} EntryLevelMonotone(c: Config, schedule: seq<Choice>, more: seq<Choice>)
    requires |c.levels| > 0
    ensures Run(c, schedule).entry.level <= Run(c, schedule + more).entry.level
    decreases |more|
  {
    if more == [] {
      assert schedule + more == schedule;
    } else {
      var fewer := more[..|more| - 1];
      EntryLevelMonotone(c, schedule, fewer);
      assert (schedule + more)[..|schedule + more| - 1] == schedule + fewer;
      LastStepGrows(c, schedule + more);
    }
  }

  /** Once every worker has finished, the entry point has the highest level of all points. */
  lemma FinalEntryIsHighest(c: Config, schedule: seq<Choice>)
    requires |c.levels| > 0
    requires forall w | 0 <= w < |c.levels| :: Run(c, schedule).workers[w] == Done
    ensures var e := Run(c, schedule).entry;
            && e.point < |c.levels| && c.levels[e.point] == e.level
            && forall p | 0 <= p < |c.levels| :: c.levels[p] <= e.level
  {
    EveryRunStructured(c, schedule);
    var s := Run(c, schedule);
    forall p | 0 <= p < |c.levels|
      ensures c.levels[p] <= s.entry.level
    {
      assert WorkerOk(c, s.entry.level, p, s.workers[p]);
    }
  }
}
