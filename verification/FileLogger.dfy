/**
 * The buffered file logger (`packages/server/src/lib/file-logger.ts`) as a machine whose steps are the stretches of
 * code between two awaits.
 */
module FileLogger {

  datatype Level = Debug | Info | Warn | Error

  /** `formats`: formatting the entry does not throw; in the JSON format a cycle or a bigint in its metadata does. */
  datatype Entry = Entry(level: Level, message: string, formats: bool)

  predicate AllFormat(entries: seq<Entry>) {
    forall i | 0 <= i < |entries| :: entries[i].formats
  }

  function Priority(level: Level): nat {
    match level
    case Debug => 0
    case Info => 1
    case Warn => 2
    case Error => 3
  }

  predicate ShouldLog(threshold: Level, level: Level) {
    Priority(level) >= Priority(threshold)
  }

  /** A level passes its own threshold and every lower one: debug, info, warn, error. */
  lemma LevelsAdmit(threshold: Level, level: Level)
    ensures ShouldLog(threshold, level) <==>
            threshold == level || threshold == Debug || level == Error || (threshold == Info && level == Warn)
  {}

  /** Where the running `doFlush` is; `AwaitingRotation(t)` waits, inside `rotate`, for the flush with ticket `t`. */
  datatype Phase = Idle | Checking | AwaitingRotation(ticket: nat) | Appending

  /**
   * `flush()` calls are tickets of the promise chain: `issued` were handed out, the first `done` of them have
   * finished, and while the phase is not `Idle` ticket `done` is the one running.
   */
  datatype State = State(
    buffer: seq<Entry>,
    inFlight: seq<Entry>,
    phase: Phase,
    issued: nat,
    done: nat,
    rotations: set<nat>,
    file: nat,
    durable: seq<Entry>)

  datatype Event =
    | Log(entry: Entry)
    | FlushCalled
    | RotateCalled
    | RunStarts
    | CheckPasses
    | CheckRotates
    | CheckThrows
    | InnerRotationResumes
    | OuterRotationResumes(ticket: nat)
    | AppendSucceeds
    | AppendThrows

  const INITIAL := State([], [], Idle, 0, 0, {}, 0, [])

  predicate Enabled(s: State, e: Event) {
    match e
    case Log(_) => true
    case FlushCalled => true
    case RotateCalled => true
    case RunStarts => s.phase == Idle && s.done < s.issued
    case CheckPasses => s.phase == Checking
    case CheckRotates => s.phase == Checking
    case CheckThrows => s.phase == Checking
    case InnerRotationResumes => s.phase.AwaitingRotation? && s.phase.ticket < s.done
    case OuterRotationResumes(t) => t in s.rotations && t < s.done
    case AppendSucceeds => s.phase == Appending
    case AppendThrows => s.phase == Appending
  }

  /** The catch block: the drained entries go back in front of what arrived meanwhile. */
  function PutBack(s: State): State {
    s.(buffer := s.inFlight + s.buffer, inFlight := [], phase := Idle, done := s.done + 1)
  }

  function Next(threshold: Level, s: State, e: Event): State {
    match e
    case Log(entry) =>
      if !ShouldLog(threshold, entry.level) then s
      else s.(buffer := s.buffer + [entry], issued := if entry.level == Error then s.issued + 1 else s.issued)
    case FlushCalled => s.(issued := s.issued + 1)
    case RotateCalled => s.(issued := s.issued + 1, rotations := s.rotations + {s.issued})
    case RunStarts =>
      // A format failure puts the batch back in the same turn.
      if s.buffer == [] || !AllFormat(s.buffer) then s.(done := s.done + 1)
      else s.(inFlight := s.buffer, buffer := [], phase := Checking)
    case CheckPasses => s.(phase := Appending)
    case CheckRotates => s.(phase := AwaitingRotation(s.issued), issued := s.issued + 1)
    case CheckThrows => PutBack(s)
    case InnerRotationResumes => s.(phase := Appending, file := s.file + 1)
    case OuterRotationResumes(t) => s.(rotations := s.rotations - {t}, file := s.file + 1)
    case AppendSucceeds =>
      s.(durable := s.durable + s.inFlight, inFlight := [], phase := Idle, done := s.done + 1)
    case AppendThrows => PutBack(s)
  }

  // ---------------------------------------------------------------------------
  // The class
  // ---------------------------------------------------------------------------

  class RealFileLogger {
    const threshold: Level
    var buffer: seq<Entry>
    var inFlight: seq<Entry>
    var phase: Phase
    var issued: nat
    var done: nat
    var rotations: set<nat>
    var file: nat
    var durable: seq<Entry>

    /** What the level filter has let through so far, in order. */
    ghost var accepted: seq<Entry>

    function View(): State
      reads this
    {
      State(buffer, inFlight, phase, issued, done, rotations, file, durable)
    }

    ghost predicate Valid()
      reads this
    {
      Sound(View()) && durable + inFlight + buffer == accepted
    }

    constructor (threshold: Level)
      ensures Valid() && View() == INITIAL && this.threshold == threshold && accepted == []
    {
      this.threshold := threshold;
      buffer, inFlight, phase, issued, done, rotations, file, durable := [], [], Idle, 0, 0, {}, 0, [];
      accepted := [];
    }

    /** Accepts the entry exactly when its level reaches the threshold; nothing becomes durable yet. */
    method Log(entry: Entry)
      requires Valid()
      modifies this
      ensures Valid() && View() == Next(threshold, old(View()), Event.Log(entry))
      ensures accepted == old(accepted) + (if ShouldLog(threshold, entry.level) then [entry] else [])
      ensures durable == old(durable) && inFlight == old(inFlight)
      ensures issued == old(issued) + (if entry.level == Error then 1 else 0)
    {
      if !ShouldLog(threshold, entry.level) { return; }
      buffer := buffer + [entry];
      accepted := accepted + [entry];
      if entry.level == Error {
        var ticket := Flush();
      }
    }

    /** Chain a run behind all earlier ones; the entries are untouched. */
    method Flush() returns (ticket: nat)
      requires Valid()
      modifies this`issued
      ensures Valid() && View() == Next(threshold, old(View()), FlushCalled)
      ensures ticket == old(issued) && done <= ticket < issued
    {
      ticket := issued;
      issued := issued + 1;
    }

    /** The synchronous head of `rotate` called from outside a flush. */
    method Rotate()
      requires Valid()
      modifies this`issued, this`rotations
      ensures Valid() && View() == Next(threshold, old(View()), RotateCalled)
      ensures issued == old(issued) + 1 && rotations == old(rotations) + {old(issued)}
    {
      var ticket := Flush();
      rotations := rotations + {ticket};
    }

    /** The synchronous head of `doFlush`: in flight go all entries that are not durable, or none. */
    method StartRun()
      requires Valid() && Enabled(View(), RunStarts)
      modifies this
      ensures Valid() && View() == Next(threshold, old(View()), RunStarts)
      ensures accepted == old(accepted) && durable == old(durable)
      ensures phase == Checking ==> AllFormat(inFlight) && inFlight == accepted[|durable|..] && buffer == []
      ensures phase == Idle ==> inFlight == [] && buffer == accepted[|durable|..] && done == old(done) + 1
    {
      if |buffer| == 0 {
        done := done + 1;
        return;
      }
      inFlight := buffer;
      buffer := [];
      if !AllFormat(inFlight) {
        PutBackInFlight();
        return;
      }
      phase := Checking;
    }

    /** `checkRotation` once the size is known; rotating means calling `flush` and waiting behind this very run. */
    method CheckRotation(oversized: bool)
      requires Valid() && phase == Checking
      modifies this
      ensures Valid() && View() == Next(threshold, old(View()), if oversized then CheckRotates else CheckPasses)
      ensures accepted == old(accepted) && durable == old(durable) && inFlight == old(inFlight)
      ensures oversized ==> phase == AwaitingRotation(old(issued)) && done < old(issued) && issued == old(issued) + 1
      ensures !oversized ==> phase == Appending && issued == old(issued)
    {
      if oversized {
        var ticket := Flush();
        phase := AwaitingRotation(ticket);
      } else {
        phase := Appending;
      }
    }

    /** `rotate` after its flush, called from outside a flush. */
    method FinishRotation(ticket: nat)
      requires Valid() && Enabled(View(), OuterRotationResumes(ticket))
      modifies this`rotations, this`file
      ensures Valid() && View() == Next(threshold, old(View()), OuterRotationResumes(ticket))
      ensures file == old(file) + 1 && rotations == old(rotations) - {ticket}
    {
      file := file + 1;
      rotations := rotations - {ticket};
    }

    /** The catch block of `doFlush`; afterwards the buffer is all that is not durable, in the order of acceptance. */
    method PutBackInFlight()
      requires durable + inFlight + buffer == accepted && done < issued
      requires forall t | t in rotations :: t < issued
      requires AllFormat(durable)
      modifies this`buffer, this`inFlight, this`phase, this`done
      ensures Valid() && View() == PutBack(old(View()))
      ensures buffer == accepted[|durable|..]
    {
      buffer := inFlight + buffer;
      inFlight := [];
      phase := Idle;
      done := done + 1;
      assert durable + [] + buffer == accepted;
    }

    /** A failed size check or append. */
    method FailRun(e: Event)
      requires Valid() && (e == CheckThrows || e == AppendThrows) && Enabled(View(), e)
      modifies this
      ensures Valid() && View() == Next(threshold, old(View()), e)
      ensures accepted == old(accepted) && durable == old(durable) && buffer == accepted[|durable|..]
      ensures phase == Idle && done == old(done) + 1
    {
      PutBackInFlight();
    }

    /** A successful append: the batch is durable, behind everything that was. */
    method FinishAppend()
      requires Valid() && phase == Appending
      modifies this
      ensures Valid() && View() == Next(threshold, old(View()), AppendSucceeds)
      ensures accepted == old(accepted) && durable == old(durable + inFlight) && durable <= accepted
      ensures phase == Idle && inFlight == [] && done == old(done) + 1
    {
      durable := durable + inFlight;
      inFlight := [];
      phase := Idle;
      done := done + 1;
      assert durable + [] + buffer == accepted;
    }

    /** One event of a history, handled by the method it stands for. */
    method Handle(e: Event)
      requires Valid() && Enabled(View(), e)
      modifies this
      ensures Valid() && View() == Next(threshold, old(View()), e)
      ensures accepted == old(accepted) + Accepted(threshold, [e])
    {
      AcceptedOne(threshold, e);
      match e {
        case Log(entry) => Log(entry);
        case FlushCalled => var ticket := Flush();
        case RotateCalled => Rotate();
        case RunStarts => StartRun();
        case CheckPasses => CheckRotation(false);
        case CheckRotates => CheckRotation(true);
        case CheckThrows => FailRun(e);
        case InnerRotationResumes => assert false;
        case OuterRotationResumes(ticket) => FinishRotation(ticket);
        case AppendSucceeds => FinishAppend();
        case AppendThrows => FailRun(e);
      }
    }
  }

  /** A logger that has lived through a history is in the state the machine reaches, and holds what was accepted. */
  method Replay(threshold: Level, events: seq<Event>) returns (logger: RealFileLogger)
    requires Possible(threshold, INITIAL, events)
    ensures fresh(logger) && logger.Valid() && logger.threshold == threshold
    ensures logger.View() == Run(threshold, INITIAL, events)
    ensures logger.durable + logger.inFlight + logger.buffer == Accepted(threshold, events)
  {
    hide Next, Enabled, Sound, Accepted;
    logger := new RealFileLogger(threshold);
    assert events[0..] == events;
    for i := 0 to |events|
      invariant fresh(logger) && logger.Valid() && logger.threshold == threshold
      invariant Possible(threshold, logger.View(), events[i..])
      invariant Run(threshold, logger.View(), events[i..]) == Run(threshold, INITIAL, events)
      invariant logger.accepted + Accepted(threshold, events[i..]) == Accepted(threshold, events)
    {
      assert events[i..][0] == events[i] && events[i..][1..] == events[i + 1..];
      AcceptedStep(threshold, events[i..]);
      logger.Handle(events[i]);
    }
    NothingAccepted(threshold);
  }

  // ---------------------------------------------------------------------------
  // Runs
  // ---------------------------------------------------------------------------

  /** Every event is enabled where it happens. */
  predicate Possible(threshold: Level, s: State, events: seq<Event>)
    decreases |events|
  {
    events == [] || (Enabled(s, events[0]) && Possible(threshold, Next(threshold, s, events[0]), events[1..]))
  }

  function Run(threshold: Level, s: State, events: seq<Event>): State
    decreases |events|
  {
    if events == [] then s else Run(threshold, Next(threshold, s, events[0]), events[1..])
  }

  /** The entries the level filter let through, read off the history alone. */
  function Accepted(threshold: Level, events: seq<Event>): seq<Entry> {
    if events == [] then []
    else
      var e := events[0];
      (if e.Log? && ShouldLog(threshold, e.entry.level) then [e.entry] else []) + Accepted(threshold, events[1..])
  }

  function Opens(s: State, e: Event): int {
    if e == RunStarts && s.buffer != [] && AllFormat(s.buffer) then 1
    else if e == AppendSucceeds || e == AppendThrows || e == CheckThrows then -1 else 0
  }

  /** Batches taken from the buffer and not yet appended or put back, counted over a history that starts in `s`. */
  function OpenBatches(threshold: Level, s: State, events: seq<Event>): int
    decreases |events|
  {
    if events == [] then 0
    else
      var e := events[0];
      Opens(s, e) + OpenBatches(threshold, Next(threshold, s, e), events[1..])
  }

  ghost predicate Sound(s: State) {
    && (s.phase == Idle <==> s.inFlight == [])
    && s.done <= s.issued
    && (s.phase != Idle ==> s.done < s.issued)
    && (s.phase.AwaitingRotation? ==> s.done < s.phase.ticket < s.issued)
    && (forall t | t in s.rotations :: t < s.issued)
    && AllFormat(s.durable) && AllFormat(s.inFlight)
  }

  function Held(s: State): seq<Entry> { s.durable + s.inFlight + s.buffer }

  /** One step keeps soundness and, but for an accepted entry at the end, the held sequence. */
  lemma StepConserves(threshold: Level, s: State, e: Event)
    requires Sound(s) && Enabled(s, e)
    ensures Sound(Next(threshold, s, e))
    ensures Held(Next(threshold, s, e)) == Held(s) + Accepted(threshold, [e])
  {
    hide *;
    StepIsSound(threshold, s, e);
    StepKeepsHeld(threshold, s, e);
    AcceptedOne(threshold, e);
  }

  lemma StepIsSound(threshold: Level, s: State, e: Event)
    requires Sound(s) && Enabled(s, e)
    ensures Sound(Next(threshold, s, e))
  {}

  lemma StepKeepsHeld(threshold: Level, s: State, e: Event)
    requires Sound(s) && Enabled(s, e)
    ensures Held(Next(threshold, s, e)) ==
            Held(s) + (if e.Log? && ShouldLog(threshold, e.entry.level) then [e.entry] else [])
  {
    hide ShouldLog;
    match e
    case Log(entry) => assert s.durable + s.inFlight + (s.buffer + [entry]) == Held(s) + [entry];
    case CheckThrows => assert s.durable + [] + (s.inFlight + s.buffer) == Held(s);
    case AppendThrows => assert s.durable + [] + (s.inFlight + s.buffer) == Held(s);
    case _ =>
  }

  lemma AcceptedOne(threshold: Level, e: Event)
    ensures Accepted(threshold, [e]) == if e.Log? && ShouldLog(threshold, e.entry.level) then [e.entry] else []
  {
    assert [e][1..] == [];
  }

  lemma {:induction false} RunConserves(threshold: Level, s: State, events: seq<Event>)
    requires Sound(s) && Possible(threshold, s, events)
    ensures Sound(Run(threshold, s, events))
    ensures Held(Run(threshold, s, events)) == Held(s) + Accepted(threshold, events)
    ensures OpenBatches(threshold, s, events) ==
            (if Run(threshold, s, events).phase == Idle then 0 else 1) - (if s.phase == Idle then 0 else 1)
    decreases |events|
  {
    hide Held, Sound, Next, Enabled, Accepted;
    if events == [] {
      NothingAccepted(threshold);
      assert Held(s) + [] == Held(s);
    } else {
      var e, rest := events[0], events[1..];
      var m := Next(threshold, s, e);
      StepConserves(threshold, s, e);
      StepOpens(threshold, s, e);
      RunConserves(threshold, m, rest);
      AcceptedStep(threshold, events);
      assert Held(s) + Accepted(threshold, [e]) + Accepted(threshold, rest)
          == Held(s) + (Accepted(threshold, [e]) + Accepted(threshold, rest));
    }
  }

  lemma NothingAccepted(threshold: Level)
    ensures Accepted(threshold, []) == []
  {}

  lemma AcceptedStep(threshold: Level, events: seq<Event>)
    requires events != []
    ensures Accepted(threshold, events) == Accepted(threshold, [events[0]]) + Accepted(threshold, events[1..])
  {
    assert [events[0]][1..] == [];
  }

  /** How one step opens or closes a batch. */
  lemma StepOpens(threshold: Level, s: State, e: Event)
    requires Sound(s) && Enabled(s, e)
    ensures (if s.phase == Idle then 0 else 1) + Opens(s, e) == if Next(threshold, s, e).phase == Idle then 0 else 1
  {}

  /** Nothing is lost, duplicated or reordered, and at most one batch is in flight, in every interleaving. */
  lemma NothingLostOrReordered(threshold: Level, events: seq<Event>)
    requires Possible(threshold, INITIAL, events)
    ensures var s := Run(threshold, INITIAL, events);
            s.durable + s.inFlight + s.buffer == Accepted(threshold, events)
    ensures 0 <= OpenBatches(threshold, INITIAL, events) <= 1
  {
    RunConserves(threshold, INITIAL, events);
    assert Held(INITIAL) == [];
  }

  /** Events that ask for a flush: a call, a rotation, a logged error, an oversized file. */
  predicate AsksForFlush(e: Event) {
    e == FlushCalled || e == RotateCalled || e == CheckRotates || (e.Log? && e.entry.level == Error)
  }

  function Asked(events: seq<Event>): nat {
    if events == [] then 0
    else
      (if AsksForFlush(events[0]) then 1 else 0) + Asked(events[1..])
  }

  /** The rotations a history completes. */
  function Rotated(events: seq<Event>): nat {
    if events == [] then 0
    else (if events[0].OuterRotationResumes? then 1 else 0) + Rotated(events[1..])
  }

  /** Every request for a flush gets its ticket, and every completed rotation a new file. */
  lemma {:induction false} TicketsAreCounted(threshold: Level, s: State, events: seq<Event>)
    requires Sound(s) && Possible(threshold, s, events)
    ensures Run(threshold, s, events).issued == s.issued + Asked(events)
    ensures Run(threshold, s, events).file == s.file + Rotated(events)
    decreases |events|
  {
    hide Sound;
    if events != [] {
      StepConserves(threshold, s, events[0]);
      StepCounts(threshold, s, events[0]);
      TicketsAreCounted(threshold, Next(threshold, s, events[0]), events[1..]);
    }
  }

  lemma StepCounts(threshold: Level, s: State, e: Event)
    requires Sound(s) && Enabled(s, e)
    ensures Next(threshold, s, e).issued == s.issued + if AsksForFlush(e) then 1 else 0
    ensures Next(threshold, s, e).file == s.file + if e.OuterRotationResumes? then 1 else 0
  {}

  // ---------------------------------------------------------------------------
  // Rotation from inside a flush
  // ---------------------------------------------------------------------------

  /** A run that rotates waits for a later ticket than its own, so it waits for ever and holds its batch. */
  lemma {:induction false} SelfWaitIsForever(threshold: Level, s: State, events: seq<Event>)
    requires Sound(s) && s.phase.AwaitingRotation? && Possible(threshold, s, events)
    ensures var s' := Run(threshold, s, events);
            s'.phase == s.phase && s'.done == s.done && s'.durable == s.durable && s'.inFlight == s.inFlight
    ensures InnerRotationResumes !in events && AppendSucceeds !in events
    decreases |events|
  {
    if events != [] {
      StepConserves(threshold, s, events[0]);
      SelfWaitIsForever(threshold, Next(threshold, s, events[0]), events[1..]);
      assert events == [events[0]] + events[1..];
    }
  }

  /** In a run from the start no rotation that began inside a flush ever resumes. */
  lemma {:induction false} InnerRotationNeverResumes(threshold: Level, s: State, events: seq<Event>)
    requires Sound(s) && Possible(threshold, s, events)
    ensures InnerRotationResumes !in events
    decreases |events|
  {
    if events != [] {
      StepConserves(threshold, s, events[0]);
      InnerRotationNeverResumes(threshold, Next(threshold, s, events[0]), events[1..]);
      assert events == [events[0]] + events[1..];
    }
  }

  // ---------------------------------------------------------------------------
  // What a resolved flush means
  // ---------------------------------------------------------------------------

  /** The run of ticket `t` itself meets no exception. */
  predicate CleanRun(threshold: Level, s: State, events: seq<Event>, t: nat)
    decreases |events|
  {
    events == [] ||
    (&& (s.done == t ==> events[0] != CheckThrows && events[0] != AppendThrows)
     && (s.done == t && events[0] == RunStarts ==> AllFormat(s.buffer))
     && CleanRun(threshold, Next(threshold, s, events[0]), events[1..], t))
  }

  /** The first `n` held entries are written by ticket `t`, or on their way in its run. */
  ghost predicate Covered(s: State, t: nat, n: nat) {
    && n <= |Held(s)|
    && (s.done > t ==> n <= |s.durable|)
    && (s.done == t && s.phase != Idle ==> n <= |s.durable| + |s.inFlight|)
  }

  lemma {:induction false} CoverageAdvances(threshold: Level, s: State, events: seq<Event>, t: nat, n: nat)
    requires Sound(s) && Possible(threshold, s, events) && CleanRun(threshold, s, events, t) && Covered(s, t, n)
    ensures Covered(Run(threshold, s, events), t, n)
    decreases |events|
  {
    if events != [] {
      var e := events[0];
      StepConserves(threshold, s, e);
      assert Covered(Next(threshold, s, e), t, n) by {
        assert |Held(s)| == |s.durable| + |s.inFlight| + |s.buffer|;
      }
      CoverageAdvances(threshold, Next(threshold, s, e), events[1..], t, n);
    }
  }

  /** The calls that hand out a ticket; a logged error does, whatever the threshold. */
  predicate Flushes(e: Event) {
    e == FlushCalled || e == RotateCalled || (e.Log? && e.entry.level == Error)
  }

  /**
   * Once the flush that `call` asked for after history `before` has finished without an exception of its own, every
   * entry accepted up to and including `call` is durable, in order -- also those an earlier failed flush had put back.
   */
  lemma FinishedFlushIsDurable(threshold: Level, before: seq<Event>, call: Event, after: seq<Event>)
    requires Possible(threshold, INITIAL, before) && Flushes(call)
    requires var s := Run(threshold, INITIAL, before);
             && Possible(threshold, Next(threshold, s, call), after)
             && CleanRun(threshold, Next(threshold, s, call), after, s.issued)
             && Run(threshold, Next(threshold, s, call), after).done > s.issued
    ensures Accepted(threshold, before) + Accepted(threshold, [call])
         <= Run(threshold, Next(threshold, Run(threshold, INITIAL, before), call), after).durable
  {
    hide Run, Possible, CleanRun, Accepted;
    var s := Run(threshold, INITIAL, before);
    RunConserves(threshold, INITIAL, before);
    StepConserves(threshold, s, call);
    var m := Next(threshold, s, call);
    assert Held(INITIAL) + Accepted(threshold, before) == Accepted(threshold, before);
    var n := |Held(m)|;
    assert m.done <= s.issued;
    CoverageAdvances(threshold, m, after, s.issued, n);
    RunConserves(threshold, m, after);
    var s' := Run(threshold, m, after);
    assert Held(s') == Held(m) + Accepted(threshold, after);
    assert Held(s')[..n] == Held(m);
    assert Held(s')[..n] == s'.durable[..n];
  }

  // ---------------------------------------------------------------------------
  // When everything can still reach the disk
  // ---------------------------------------------------------------------------

  lemma {:induction false} RunOfConcat(threshold: Level, s: State, a: seq<Event>, b: seq<Event>)
    ensures Run(threshold, s, a + b) == Run(threshold, Run(threshold, s, a), b)
    ensures Possible(threshold, s, a + b) <==> Possible(threshold, s, a) && Possible(threshold, Run(threshold, s, a), b)
    decreases |a|
  {
    if a == [] {
      assert a + b == b;
    } else {
      assert (a + b)[1..] == a[1..] + b;
      RunOfConcat(threshold, Next(threshold, s, a[0]), a[1..], b);
    }
  }

  lemma FinishRunning(threshold: Level, s: State)
    requires Sound(s) && (s.phase == Checking || s.phase == Appending)
    ensures var events := if s.phase == Checking then [CheckPasses, AppendSucceeds] else [AppendSucceeds];
            && Possible(threshold, s, events)
            && Run(threshold, s, events) ==
               s.(durable := s.durable + s.inFlight, inFlight := [], phase := Idle, done := s.done + 1)
  {
    assert [CheckPasses, AppendSucceeds][1..] == [AppendSucceeds] && [AppendSucceeds][1..] == [];
    var m := s.(phase := Appending);
    assert Run(threshold, m, [AppendSucceeds]) == Next(threshold, m, AppendSucceeds);
    assert Possible(threshold, m, [AppendSucceeds]);
  }

  lemma OneMoreFlush(threshold: Level, s: State)
    requires Sound(s) && s.phase == Idle && AllFormat(s.buffer)
    ensures var events := [FlushCalled, RunStarts] + (if s.buffer == [] then [] else [CheckPasses, AppendSucceeds]);
            && Possible(threshold, s, events)
            && Run(threshold, s, events).durable == s.durable + s.buffer
  {
    var head := [FlushCalled, RunStarts];
    assert head[1..] == [RunStarts] && [RunStarts][1..] == [];
    var s1 := Next(threshold, s, FlushCalled);
    var s2 := Next(threshold, s1, RunStarts);
    assert Run(threshold, s1, [RunStarts]) == s2 && Possible(threshold, s1, [RunStarts]);
    assert Run(threshold, s, head) == s2 && Possible(threshold, s, head);
    if s.buffer == [] {
      assert head + [] == head;
    } else {
      FinishRunning(threshold, s2);
      RunOfConcat(threshold, s, head, [CheckPasses, AppendSucceeds]);
    }
  }

  /** Some continuation makes everything held durable. */
  ghost predicate CanDrain(threshold: Level, s: State) {
    exists events :: Possible(threshold, s, events) && Held(s) <= Run(threshold, s, events).durable
  }

  lemma Drains(threshold: Level, s: State)
    requires Sound(s) && !s.phase.AwaitingRotation? && AllFormat(s.buffer)
    ensures CanDrain(threshold, s)
  {
    hide Possible, Run, Next;
    var first := if s.phase == Checking then [CheckPasses, AppendSucceeds]
                 else if s.phase == Appending then [AppendSucceeds] else [];
    if s.phase == Idle { NoEvents(threshold, s); } else { FinishRunning(threshold, s); }
    var idle := Run(threshold, s, first);
    var second := [FlushCalled, RunStarts] + (if idle.buffer == [] then [] else [CheckPasses, AppendSucceeds]);
    OneMoreFlush(threshold, idle);
    RunOfConcat(threshold, s, first, second);
    assert Held(s) == Run(threshold, s, first + second).durable;
  }

  lemma NoEvents(threshold: Level, s: State)
    ensures Possible(threshold, s, []) && Run(threshold, s, []) == s
  {}

  /** While the buffer holds an entry that does not format, nothing behind the batch in flight ever becomes durable. */
  lemma {:induction false} BadEntryBlocks(threshold: Level, s: State, events: seq<Event>)
    requires Sound(s) && !AllFormat(s.buffer) && Possible(threshold, s, events)
    ensures var s' := Run(threshold, s, events);
            !AllFormat(s'.buffer) && s'.durable + s'.inFlight <= s.durable + s.inFlight
    decreases |events|
  {
    if events != [] {
      var m := Next(threshold, s, events[0]);
      StepConserves(threshold, s, events[0]);
      BadEntryStep(threshold, s, events[0]);
      BadEntryBlocks(threshold, m, events[1..]);
    }
  }

  lemma BadEntryStep(threshold: Level, s: State, e: Event)
    requires Sound(s) && !AllFormat(s.buffer) && Enabled(s, e)
    ensures var m := Next(threshold, s, e);
            !AllFormat(m.buffer) && m.durable + m.inFlight <= s.durable + s.inFlight
  {
    var bad :| 0 <= bad < |s.buffer| && !s.buffer[bad].formats;
    var m := Next(threshold, s, e);
    if e == CheckThrows || e == AppendThrows {
      assert m.buffer[|s.inFlight| + bad] == s.buffer[bad];
    } else {
      assert m.buffer[bad] == s.buffer[bad];
    }
  }

  /** A flush waits on itself exactly when one has met an oversized file. */
  lemma {:induction false} SelfWaitInHistory(threshold: Level, s: State, events: seq<Event>)
    requires Sound(s) && Possible(threshold, s, events)
    ensures Run(threshold, s, events).phase.AwaitingRotation? <==> s.phase.AwaitingRotation? || CheckRotates in events
    decreases |events|
  {
    hide Sound;
    if events != [] {
      var e := events[0];
      StepConserves(threshold, s, e);
      SelfWaitInHistory(threshold, Next(threshold, s, e), events[1..]);
      assert events == [e] + events[1..];
      SelfWaitStep(threshold, s, e);
    }
  }

  lemma SelfWaitStep(threshold: Level, s: State, e: Event)
    requires Sound(s) && Enabled(s, e)
    ensures Next(threshold, s, e).phase.AwaitingRotation? <==> s.phase.AwaitingRotation? || e == CheckRotates
  {}

  /**
   * After any history, everything accepted can still reach the disk exactly when no flush has met an oversized file
   * and every accepted entry formats.
   */
  lemma DrainableExactly(threshold: Level, history: seq<Event>)
    requires Possible(threshold, INITIAL, history)
    ensures CanDrain(threshold, Run(threshold, INITIAL, history)) <==>
            CheckRotates !in history && AllFormat(Accepted(threshold, history))
  {
    hide Possible, Run, Next;
    RunConserves(threshold, INITIAL, history);
    SelfWaitInHistory(threshold, INITIAL, history);
    var s := Run(threshold, INITIAL, history);
    assert Held(s) == Accepted(threshold, history) by { assert Held(INITIAL) == []; }
    FormatsOfHeld(s);
    if s.phase.AwaitingRotation? {
      forall events | Possible(threshold, s, events)
        ensures |Run(threshold, s, events).durable| < |Held(s)|
      {
        SelfWaitIsForever(threshold, s, events);
      }
    } else if !AllFormat(s.buffer) {
      forall events | Possible(threshold, s, events)
        ensures |Run(threshold, s, events).durable| < |Held(s)|
      {
        BadEntryBlocks(threshold, s, events);
      }
    } else {
      Drains(threshold, s);
    }
  }

  lemma FormatsOfHeld(s: State)
    requires Sound(s)
    ensures AllFormat(Held(s)) <==> AllFormat(s.buffer)
    ensures !AllFormat(s.buffer) ==> s.buffer != []
  {
    var done := s.durable + s.inFlight;
    assert forall i | 0 <= i < |s.buffer| :: Held(s)[|done| + i] == s.buffer[i];
    assert forall i | 0 <= i < |done| :: Held(s)[i] == done[i];
  }

  // ---------------------------------------------------------------------------
  // Two histories that end the logger's work
  // ---------------------------------------------------------------------------

  /** One entry, one flush, one oversized file: the flush waits on itself. */
  lemma OversizedFileStopsTheLogger(entry: Entry)
    requires entry.formats
    ensures var history := [Log(entry), FlushCalled, RunStarts, CheckRotates];
            && Possible(Debug, INITIAL, history)
            && Run(Debug, INITIAL, history).phase.AwaitingRotation?
            && !CanDrain(Debug, Run(Debug, INITIAL, history))
  {
    hide Sound, Held, CanDrain, Accepted;
    var history := [Log(entry), FlushCalled, RunStarts, CheckRotates];
    var t1, t2, t3 := [FlushCalled, RunStarts, CheckRotates], [RunStarts, CheckRotates], [CheckRotates];
    assert history[1..] == t1 && t1[1..] == t2 && t2[1..] == t3 && t3[1..] == [];
    var s1 := Next(Debug, INITIAL, Log(entry));
    var s2 := Next(Debug, s1, FlushCalled);
    var s3 := Next(Debug, s2, RunStarts);
    assert Possible(Debug, s3, t3) && Run(Debug, s3, t3) == Next(Debug, s3, CheckRotates);
    assert Possible(Debug, s2, t2) && Possible(Debug, s1, t1);
    assert Run(Debug, s2, t2) == Run(Debug, s3, t3) && Run(Debug, s1, t1) == Run(Debug, s2, t2);
    assert history[3] == CheckRotates;
    DrainableExactly(Debug, history);
  }

  /** One entry that does not format, one flush: the logger is idle, and no later flush writes anything. */
  lemma UnformattableEntryStopsTheLogger(entry: Entry)
    requires !entry.formats
    ensures var history := [Log(entry), FlushCalled, RunStarts];
            && Possible(Debug, INITIAL, history)
            && Run(Debug, INITIAL, history).phase == Idle && CheckRotates !in history
            && !CanDrain(Debug, Run(Debug, INITIAL, history))
  {
    hide Sound, Held, CanDrain;
    var history := [Log(entry), FlushCalled, RunStarts];
    var t1, t2 := [FlushCalled, RunStarts], [RunStarts];
    assert history[1..] == t1 && t1[1..] == t2 && t2[1..] == [];
    var s1 := Next(Debug, INITIAL, Log(entry));
    var s2 := Next(Debug, s1, FlushCalled);
    assert s2.buffer[0] == entry;
    assert Possible(Debug, s2, t2) && Run(Debug, s2, t2) == Next(Debug, s2, RunStarts);
    assert Possible(Debug, s1, t1) && Run(Debug, s1, t1) == Run(Debug, s2, t2);
    AcceptedStep(Debug, history);
    AcceptedOne(Debug, Log(entry));
    assert Accepted(Debug, history)[0] == entry;
    DrainableExactly(Debug, history);
  }
}
