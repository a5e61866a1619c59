/** The manifest's three files: writing, loading and crashing between any two steps of either. */
module Manifest {
  import opened Bytes

  /** Torn text is readable but does not parse; Undecodable bytes end inside a character, which makes
      reading the file as text fail outright. */
  datatype File<S> = Absent | Torn | Undecodable | Holding(state: S)

  datatype Disk<S> = Disk(current: File<S>, tmp: File<S>, prev: File<S>)

  /** What normalizing and validating a parsed manifest gives. */
  datatype Checked<S> = Rejected | Accepted(state: S, dirty: bool)

  type Check<!S> = S -> Checked<S>

  /** Normalizing twice changes nothing more, and a clean result is the state itself. */
  ghost predicate Normalizes<S(!new)>(check: Check<S>) {
    forall s :: check(s).Accepted? ==>
      && check(check(s).state) == Accepted(check(s).state, false)
      && (!check(s).dirty ==> check(s).state == s)
  }

  /** What reading one file gives: a state, nothing to use here, or an error that ends the load. */
  datatype Reading<S> = Usable(state: S, dirty: bool) | Unusable | Fatal

  function ReadFile<S>(check: Check<S>, f: File<S>): Reading<S> {
    match f
    case Absent => Unusable
    case Torn => Unusable
    case Undecodable => Fatal
    case Holding(s) =>
      match check(s)
      case Rejected => Fatal
      case Accepted(s', dirty) => Usable(s', dirty)
  }

  // ---- The steps ----

  /** Creating the temporary file, filling it, removing the previous file, renaming current to
      previous, and renaming temporary to current. */
  const RENAMED := 5

  /** Making the renames durable and returning: a write that stops before has changed everything on
      disk and told nobody. */
  const WRITE_STEPS := 6

  /** Promoting the temporary file is one rename and the same last step. */
  const PROMOTE_STEPS := 2

  /** The disk when a write stops after so many steps; `torn` is what a half-written file looks like. */
  function AfterWrite<S>(d: Disk<S>, s: S, steps: nat, torn: File<S>): Disk<S> {
    if steps == 0 then d
    else if steps == 1 then d.(tmp := torn)
    else if steps == 2 || (steps < RENAMED && d.current.Absent?) then d.(tmp := Holding(s))
    else if steps == 3 then d.(tmp := Holding(s), prev := Absent)
    else if steps == 4 then Disk(Absent, Holding(s), d.current)
    else Disk(Holding(s), Absent, if d.current.Absent? then d.prev else d.current)
  }

  datatype Outcome<S> = Crashed | Failed | Answer(state: Option<S>)

  function LoadOutcome<S>(check: Check<S>, d: Disk<S>, steps: nat): Outcome<S> {
    match (ReadFile(check, d.current), ReadFile(check, d.tmp), ReadFile(check, d.prev))
    case (Fatal, _, _) => Failed
    case (Usable(s, dirty), _, _) => if dirty && steps < WRITE_STEPS then Crashed else Answer(Some(s))
    case (Unusable, Fatal, _) => Failed
    case (Unusable, Usable(s, dirty), _) =>
      if steps < (if dirty then WRITE_STEPS else PROMOTE_STEPS) then Crashed else Answer(Some(s))
    case (Unusable, Unusable, Fatal) => Failed
    case (Unusable, Unusable, Usable(s, _)) => if steps < WRITE_STEPS then Crashed else Answer(Some(s))
    case (Unusable, Unusable, Unusable) => Answer(None)
  }

  function AfterLoad<S>(check: Check<S>, d: Disk<S>, steps: nat, torn: File<S>): Disk<S> {
    match (ReadFile(check, d.current), ReadFile(check, d.tmp), ReadFile(check, d.prev))
    case (Usable(s, dirty), _, _) => if dirty then AfterWrite(d, s, steps, torn) else d
    case (Unusable, Usable(s, dirty), _) =>
      if dirty then AfterWrite(d, s, steps, torn)
      else if steps == 0 then d
      else d.(current := d.tmp, tmp := Absent)
    case (Unusable, Unusable, Usable(s, _)) => AfterWrite(d, s, steps, torn)
    case _ => d
  }

  /** The read-only loader's result. */
  function ReadOnly<S>(check: Check<S>, d: Disk<S>): Outcome<S> {
    match ReadFile(check, d.current)
    case Fatal => Failed
    case Usable(s, _) => Answer(Some(s))
    case Unusable =>
      match ReadFile(check, d.tmp)
      case Fatal => Failed
      case Usable(s, _) => Answer(Some(s))
      case Unusable =>
        match ReadFile(check, d.prev)
        case Fatal => Failed
        case Usable(s, _) => Answer(Some(s))
        case Unusable => Answer(None)
  }

  /** The directory of one database. Each method may stop after a given number of steps. */
  class Directory<S> {
    var current: File<S>
    var tmp: File<S>
    var prev: File<S>

    constructor ()
      ensures Contents() == Disk(Absent, Absent, Absent)
    {
      current, tmp, prev := Absent, Absent, Absent;
    }

    ghost function Contents(): Disk<S>
      reads this
    {
      Disk(current, tmp, prev)
    }

    method WriteManifest(s: S, steps: nat, torn: File<S>) returns (done: bool)
      modifies this
      ensures Contents() == AfterWrite(old(Contents()), s, steps, torn)
      ensures done <==> steps >= WRITE_STEPS
    {
      done := false;
      if steps == 0 { return; }
      tmp := torn;
      if steps == 1 { return; }
      tmp := Holding(s);
      if steps == 2 { return; }
      if !current.Absent? {
        if !prev.Absent? {
          prev := Absent;
        }
        if steps == 3 { return; }
        prev, current := current, Absent;
      }
      if steps < RENAMED { return; }
      current, tmp := tmp, Absent;
      done := steps >= WRITE_STEPS;
    }

    method LoadManifest(check: Check<S>, steps: nat, torn: File<S>) returns (o: Outcome<S>)
      modifies this
      ensures o == LoadOutcome(check, old(Contents()), steps)
      ensures Contents() == AfterLoad(check, old(Contents()), steps, torn)
    {
      var reading := ReadFile(check, current);
      if reading.Fatal? { return Failed; }
      if reading.Usable? {
        if reading.dirty {
          var done := WriteManifest(reading.state, steps, torn);
          if !done { return Crashed; }
        }
        return Answer(Some(reading.state));
      }
      reading := ReadFile(check, tmp);
      if reading.Fatal? { return Failed; }
      if reading.Usable? {
        if reading.dirty {
          var done := WriteManifest(reading.state, steps, torn);
          if !done { return Crashed; }
        } else {
          if steps == 0 { return Crashed; }
          current, tmp := tmp, Absent;
          if steps < PROMOTE_STEPS { return Crashed; }
        }
        return Answer(Some(reading.state));
      }
      reading := ReadFile(check, prev);
      if reading.Fatal? { return Failed; }
      if reading.Usable? {
        var done := WriteManifest(reading.state, steps, torn);
        return if done then Answer(Some(reading.state)) else Crashed;
      }
      return Answer(None);
    }

    method LoadManifestReadOnly(check: Check<S>) returns (o: Outcome<S>)
      ensures o == ReadOnly(check, Contents())
    {
      var reading := ReadFile(check, current);
      if reading.Unusable? {
        reading := ReadFile(check, tmp);
      }
      if reading.Unusable? {
        reading := ReadFile(check, prev);
      }
      match reading
      case Fatal => return Failed;
      case Usable(s, _) => return Answer(Some(s));
      case Unusable => return Answer(None);
    }
  }

  // ---- Loading on any disk ----

  /** A load that is not cut short answers what the read-only loader answers, and leaves a disk on
      which both keep answering that, with nothing left to repair. */
  lemma LoadAgreesWithReadOnly<S(!new)>(check: Check<S>, d: Disk<S>, steps: nat, torn: File<S>)
    requires Normalizes(check)
    ensures LoadOutcome(check, d, steps) != Crashed ==>
              && LoadOutcome(check, d, steps) == ReadOnly(check, d)
              && ReadOnly(check, AfterLoad(check, d, steps, torn)) == ReadOnly(check, d)
    ensures LoadOutcome(check, d, steps).Answer? ==>
              AfterLoad(check, AfterLoad(check, d, steps, torn), 0, torn) == AfterLoad(check, d, steps, torn)
  {
  }

  /** A half-written file: it does not parse, or cannot even be read as text. */
  predicate HalfWritten<S>(f: File<S>) { f.Torn? || f.Undecodable? }

  /** The crash comes while the temporary file is being rewritten, and the current file is no use:
      either the answer was only in the temporary file, or it is in the previous one and what is left
      of the temporary file hides it. */
  predicate HidesAnswer<S>(check: Check<S>, d: Disk<S>, steps: nat, torn: File<S>) {
    var tmp := ReadFile(check, d.tmp);
    && steps == 1 && ReadFile(check, d.current).Unusable?
    && (|| (tmp.Usable? && tmp.dirty)
        || (tmp.Unusable? && ReadFile(check, d.prev).Usable? && torn.Undecodable?))
  }

  /** A crash inside a load leaves the answer as it was, but for that one moment; then it is the
      answer without the temporary file, or no answer at all. */
  lemma CrashedLoadAnswer<S(!new)>(check: Check<S>, d: Disk<S>, steps: nat, torn: File<S>)
    requires Normalizes(check) && HalfWritten(torn)
    ensures ReadOnly(check, AfterLoad(check, d, steps, torn)) ==
            if !HidesAnswer(check, d, steps, torn) then ReadOnly(check, d)
            else if torn.Undecodable? then Failed
            else ReadOnly(check, d.(tmp := Absent))
  {
  }

  // ---- Whole runs ----

  datatype Event<S> =
    | Write(state: S, steps: nat, torn: File<S>)
    | Load(steps: nat, torn: File<S>)

  /** What has been promised: the last state a finished write stored or a load returned, and the
      writes cut short since then, which may or may not have taken effect. */
  datatype History<S(==)> = History(acknowledged: Option<S>, inFlight: set<S>)

  ghost function Known<S>(h: History<S>): set<S> {
    h.inFlight + if h.acknowledged.Some? then {h.acknowledged.value} else {}
  }

  /** The state a manifest written this way will be read back as. */
  function Normal<S>(check: Check<S>, s: S): S
    requires check(s).Accepted?
  {
    check(s).state
  }

  ghost function Remember<S>(check: Check<S>, h: History<S>, d: Disk<S>, e: Event<S>): History<S>
    requires e.Write? ==> check(e.state).Accepted?
  {
    match e
    case Write(s, steps, _) =>
      if steps >= WRITE_STEPS then History(Some(Normal(check, s)), {})
      else h.(inFlight := h.inFlight + {Normal(check, s)})
    case Load(steps, _) =>
      if LoadOutcome(check, d, steps).Answer? then History(LoadOutcome(check, d, steps).state, {}) else h
  }

  function Apply<S>(check: Check<S>, d: Disk<S>, e: Event<S>): Disk<S> {
    match e
    case Write(s, steps, torn) => AfterWrite(d, s, steps, torn)
    case Load(steps, torn) => AfterLoad(check, d, steps, torn)
  }

  /** Every state written is one the loader accepts, and a crash leaves a half-written file. */
  ghost predicate Proper<S>(check: Check<S>, events: seq<Event<S>>) {
    forall e | e in events :: HalfWritten(e.torn) && (e.Write? ==> check(e.state).Accepted?)
  }

  /** The disk and the history after a run from an empty directory. */
  ghost function Run<S>(check: Check<S>, events: seq<Event<S>>): (Disk<S>, History<S>)
    requires Proper(check, events)
    decreases |events|
  {
    if events == [] then (Disk(Absent, Absent, Absent), History(None, {}))
    else
      var last := |events| - 1;
      var (d, h) := Run(check, events[..last]);
      (Apply(check, d, events[last]), Remember(check, h, d, events[last]))
  }

  ghost predicate HoldsKnown<S>(check: Check<S>, f: File<S>, h: History<S>) {
    f.Holding? && check(f.state).Accepted? && check(f.state).state in Known(h)
  }

  /** The current file is absent or holds a known state; while it is absent, the other two hold known
      states only, and the previous file is there once something has been acknowledged. */
  ghost predicate Recoverable<S>(check: Check<S>, d: Disk<S>, h: History<S>) {
    && (d.current.Absent? || HoldsKnown(check, d.current, h))
    && (d.current.Absent? ==>
          && (d.tmp.Holding? ==> HoldsKnown(check, d.tmp, h))
          && (d.prev.Absent? || HoldsKnown(check, d.prev, h))
          && (h.acknowledged.Some? ==> d.prev.Holding?))
  }

  lemma WriteKeepsRecoverable<S(!new)>(check: Check<S>, d: Disk<S>, h: History<S>, s: S, steps: nat, torn: File<S>)
    requires Recoverable(check, d, h) && HalfWritten(torn) && check(s).Accepted?
    ensures Recoverable(check, AfterWrite(d, s, steps, torn), Remember(check, h, d, Write(s, steps, torn)))
  {
  }

  lemma LoadKeepsRecoverable<S(!new)>(check: Check<S>, d: Disk<S>, h: History<S>, steps: nat, torn: File<S>)
    requires Normalizes(check) && Recoverable(check, d, h) && HalfWritten(torn)
    ensures Recoverable(check, AfterLoad(check, d, steps, torn), Remember(check, h, d, Load(steps, torn)))
  {
  }

  lemma {:induction false} RunsStayRecoverable<S(!new)>(check: Check<S>, events: seq<Event<S>>)
    requires Normalizes(check) && Proper(check, events)
    ensures Recoverable(check, Run(check, events).0, Run(check, events).1)
    decreases |events|
  {
    if events != [] {
      var last := |events| - 1;
      RunsStayRecoverable(check, events[..last]);
      var (d, h) := Run(check, events[..last]);
      match events[last]
      case Write(s, steps, torn) =>
        assert events[last] in events;
        WriteKeepsRecoverable(check, d, h, s, steps, torn);
      case Load(steps, torn) =>
        assert events[last] in events;
        LoadKeepsRecoverable(check, d, h, steps, torn);
    }
  }

  /** A load on this disk cannot answer: there is no current file, and the temporary one cannot be
      read as text. */
  predicate Stuck<S>(d: Disk<S>) { d.current.Absent? && d.tmp.Undecodable? }

  /** After any run of writes and loads, each stopping anywhere: a load that finishes answers with the
      acknowledged state or one of those in flight, and only on a stuck disk does it fail. It answers
      that there is no manifest only if none was ever acknowledged. */
  lemma EveryLoadRecovers<S(!new)>(check: Check<S>, events: seq<Event<S>>, steps: nat)
    requires Normalizes(check) && Proper(check, events)
    ensures var (d, h) := Run(check, events);
            var o := LoadOutcome(check, d, steps);
            && (o == Failed <==> Stuck(d))
            && (o.Answer? ==> if o.state.Some? then o.state.value in Known(h) else h.acknowledged.None?)
            && (steps >= WRITE_STEPS ==> o != Crashed)
  {
    RunsStayRecoverable(check, events);
  }

  lemma RunSnoc<S(!new)>(check: Check<S>, events: seq<Event<S>>, e: Event<S>)
    requires Proper(check, events + [e])
    ensures Proper(check, events) && (e.Write? ==> check(e.state).Accepted?)
    ensures var (d, h) := Run(check, events);
            Run(check, events + [e]) == (Apply(check, d, e), Remember(check, h, d, e))
  {
    assert (events + [e])[..|events|] == events;
    assert (events + [e])[|events|] == e;
    assert forall x | x in events :: x in events + [e];
  }

  /** A further load changes nothing that was promised. */
  lemma LoadAfterAnswer<S(!new)>(check: Check<S>, events: seq<Event<S>>, e: Event<S>)
    requires Normalizes(check) && Proper(check, events + [e]) && e.Load?
    requires Proper(check, events) && Run(check, events).1.inFlight == {}
    ensures Run(check, events + [e]).1 == Run(check, events).1
  {
    RunSnoc(check, events, e);
    EveryLoadRecovers(check, events, e.steps);
  }

  /** Once a load has answered, every later load that finishes gives the same answer, however many
      are cut short in between, until the next write. */
  lemma {:induction false} AnswerIsStable<S(!new)>(check: Check<S>, before: seq<Event<S>>, loads: seq<Event<S>>, steps: nat)
    requires Normalizes(check) && Proper(check, before + loads) && Proper(check, before)
    requires forall e | e in loads :: e.Load?
    requires Run(check, before).1.inFlight == {}
    ensures Run(check, before + loads).1 == Run(check, before).1
    ensures var o := LoadOutcome(check, Run(check, before + loads).0, steps);
            o.Answer? ==> o.state == Run(check, before).1.acknowledged
    decreases |loads|
  {
    if loads == [] {
      assert before + loads == before;
    } else {
      var last := |loads| - 1;
      assert before + loads == before + loads[..last] + [loads[last]];
      RunSnoc(check, before + loads[..last], loads[last]);
      AnswerIsStable(check, before, loads[..last], loads[last].steps);
      LoadAfterAnswer(check, before + loads[..last], loads[last]);
    }
    EveryLoadRecovers(check, before + loads, steps);
  }

  /** What a load answers becomes what has been promised. */
  lemma AnswerIsPromised<S(!new)>(check: Check<S>, events: seq<Event<S>>, steps: nat, torn: File<S>)
    requires Proper(check, events) && HalfWritten(torn)
    requires LoadOutcome(check, Run(check, events).0, steps).Answer?
    ensures Proper(check, events + [Load(steps, torn)])
    ensures Run(check, events + [Load(steps, torn)]).1
            == History(LoadOutcome(check, Run(check, events).0, steps).state, {})
  {
    RunSnoc(check, events, Load(steps, torn));
  }

  /** What one load has answered every later load that finishes answers too, until the next write. */
  lemma LoadedStateStays<S(!new)>(check: Check<S>, events: seq<Event<S>>, first: Event<S>, loads: seq<Event<S>>, steps: nat)
    requires Normalizes(check) && Proper(check, events) && Proper(check, events + [first] + loads)
    requires first.Load? && forall e | e in loads :: e.Load?
    requires LoadOutcome(check, Run(check, events).0, first.steps).Answer?
    ensures var o := LoadOutcome(check, Run(check, events + [first] + loads).0, steps);
            o.Answer? ==> o == LoadOutcome(check, Run(check, events).0, first.steps)
  {
    assert forall e | e in events + [first] :: e in events + [first] + loads;
    assert first in events + [first] + loads && first == Load(first.steps, first.torn);
    AnswerIsPromised(check, events, first.steps, first.torn);
    AnswerIsStable(check, events + [first], loads, steps);
  }

  /** With text that is always decodable, no load ever fails. */
  lemma {:induction false} NeverStuck<S(!new)>(check: Check<S>, events: seq<Event<S>>)
    requires Normalizes(check) && Proper(check, events)
    requires forall e | e in events :: e.torn.Torn?
    ensures !Stuck(Run(check, events).0)
    decreases |events|
  {
    if events != [] {
      var last := |events| - 1;
      NeverStuck(check, events[..last]);
      RunsStayRecoverable(check, events[..last]);
      assert events[last] in events;
    }
  }

  /** One state that needs normalizing. */
  function SampleCheck(s: int): Checked<int> {
    if s == 1 then Accepted(2, true) else Accepted(s, false)
  }

  /** A crash can hide an acknowledged state for good: a write is acknowledged, a second one of a state
      that needs normalizing is cut short before its last rename, and the load that repairs it is cut
      short in the middle of a character. Every load fails from then on. */
  lemma AcknowledgedButUnreadable() returns (events: seq<Event<int>>)
    ensures Normalizes(SampleCheck) && Proper(SampleCheck, events)
    ensures Run(SampleCheck, events).1.acknowledged == Some(0)
    ensures Run(SampleCheck, events).0.prev == Holding(0)
    ensures forall steps: nat :: LoadOutcome(SampleCheck, Run(SampleCheck, events).0, steps) == Failed
  {
    var first: seq<Event<int>> := [Write(0, WRITE_STEPS, Torn)];
    var second := first + [Write(1, 4, Torn)];
    events := second + [Load(1, Undecodable)];
    RunSnoc(SampleCheck, [], first[0]);
    assert [] + first == first;
    RunSnoc(SampleCheck, first, Write(1, 4, Torn));
    RunSnoc(SampleCheck, second, Load(1, Undecodable));
  }

  /** A crash can take back what the read-only loader has shown: the second write was cut short before
      its last rename, so the read-only loader shows its state; the load that repairs it is cut short
      while it rewrites the temporary file, and from then on the acknowledged state is shown again. */
  lemma ShownButTakenBack() returns (events: seq<Event<int>>)
    ensures Normalizes(SampleCheck) && Proper(SampleCheck, events) && Proper(SampleCheck, events + [Load(1, Torn)])
    ensures Run(SampleCheck, events).1 == History(Some(0), {2})
    ensures ReadOnly(SampleCheck, Run(SampleCheck, events).0) == Answer(Some(2))
    ensures Run(SampleCheck, events + [Load(1, Torn)]).1 == History(Some(0), {2})
    ensures ReadOnly(SampleCheck, Run(SampleCheck, events + [Load(1, Torn)]).0) == Answer(Some(0))
    ensures forall steps: nat | steps >= WRITE_STEPS ::
              LoadOutcome(SampleCheck, Run(SampleCheck, events + [Load(1, Torn)]).0, steps) == Answer(Some(0))
  {
    var first: seq<Event<int>> := [Write(0, WRITE_STEPS, Torn)];
    events := first + [Write(1, 4, Torn)];
    RunSnoc(SampleCheck, [], first[0]);
    assert [] + first == first;
    RunSnoc(SampleCheck, first, Write(1, 4, Torn));
    RunSnoc(SampleCheck, events, Load(1, Torn));
  }

  // ---- Token namespaces ----

  datatype Token = Token(name: string, id: nat)

  /** Valid names, and distinct nonzero ids below the next one to be given out. */
  ghost predicate ValidTokens(validName: string -> bool, tokens: seq<Token>, nextId: nat) {
    && nextId > 0
    && (forall k | 0 <= k < |tokens| :: validName(tokens[k].name) && 0 < tokens[k].id < nextId)
    && (forall j, k | 0 <= j < k < |tokens| :: tokens[j].id != tokens[k].id)
  }

  method ValidateTokenNamespace(validName: string -> bool, tokens: seq<Token>, nextId: nat) returns (ok: bool)
    ensures ok <==> ValidTokens(validName, tokens, nextId)
  {
    var ids: set<nat>, maxId := {}, 0;
    for k := 0 to |tokens|
      invariant forall j | 0 <= j < k :: validName(tokens[j].name) && 0 < tokens[j].id <= maxId && tokens[j].id in ids
      invariant forall i, j | 0 <= i < j < k :: tokens[i].id != tokens[j].id
      invariant forall id | id in ids :: exists j | 0 <= j < k :: tokens[j].id == id
      invariant maxId == 0 || maxId in ids
    {
      if !validName(tokens[k].name) || tokens[k].id == 0 || tokens[k].id in ids {
        return false;
      }
      ids := ids + {tokens[k].id};
      maxId := if tokens[k].id > maxId then tokens[k].id else maxId;
    }
    return nextId > maxId;
  }

  const MAX_ID := 0xFFFF_FFFF

  /** Entering a token into a namespace: a known name must have this id, an unknown one must not take
      another's, and the next id moves past it without overflow. */
  function StageToken(validName: string -> bool, tokens: seq<Token>, nextId: nat, name: string, id: nat): Result<(seq<Token>, nat)> {
    if !validName(name) then Err
    else if exists k | 0 <= k < |tokens| :: tokens[k].name == name then
      if forall k | 0 <= k < |tokens| && tokens[k].name == name :: tokens[k].id == id then Ok((tokens, nextId)) else Err
    else if exists k | 0 <= k < |tokens| :: tokens[k].id == id then Err
    else
      var past := if id < MAX_ID then id + 1 else MAX_ID;
      Ok((tokens + [Token(name, id)], if nextId < past then past else nextId))
  }

  /** A token entered into a valid namespace leaves one that the validator accepts exactly when the
      name was known, or the id is neither the reserved 0 nor the last one. */
  lemma StagedTokensStayValid(validName: string -> bool, tokens: seq<Token>, nextId: nat, name: string, id: nat)
    requires ValidTokens(validName, tokens, nextId) && nextId <= MAX_ID && id <= MAX_ID
    requires StageToken(validName, tokens, nextId, name, id).Ok?
    ensures var (staged, next) := StageToken(validName, tokens, nextId, name, id).value;
            && next <= MAX_ID
            && (ValidTokens(validName, staged, next) <==>
                0 < id < MAX_ID || exists k | 0 <= k < |tokens| :: tokens[k].name == name)
  {
    var (staged, next) := StageToken(validName, tokens, nextId, name, id).value;
    if staged != tokens {
      assert staged[|tokens|] == Token(name, id);
      assert forall k | 0 <= k < |tokens| :: staged[k] == tokens[k];
    }
  }

  /** Giving a new name the next id, while there is one left, always succeeds: no other token has it,
      and the namespace stays valid with the following id next. */
  lemma NextTokenIsFresh(validName: string -> bool, tokens: seq<Token>, nextId: nat, name: string)
    requires ValidTokens(validName, tokens, nextId) && nextId < MAX_ID && validName(name)
    requires forall k | 0 <= k < |tokens| :: tokens[k].name != name
    ensures forall k | 0 <= k < |tokens| :: tokens[k].id != nextId
    ensures StageToken(validName, tokens, nextId, name, nextId) == Ok((tokens + [Token(name, nextId)], nextId + 1))
    ensures ValidTokens(validName, tokens + [Token(name, nextId)], nextId + 1)
  {
    StagedTokensStayValid(validName, tokens, nextId, name, nextId);
  }
}
