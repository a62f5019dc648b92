/** The lifecycle of a server-sent-events stream (`packages/server/src/utils/sse.ts`). */
module SseStream {

  /** What a client can observe, in order: payloads enqueued, and the end of the stream. */
  datatype Output = Enqueued | Closed

  /** Whether `start` is still inside `onSubscribe`. */
  datatype Phase = Subscribing | Live

  /**
   * `cleanup` says whether the variable holds a function, `timer` whether the interval is running; `cleanups` counts
   * the calls of the function `onSubscribe` returned.
   */
  datatype State = State(isClosed: bool, cleanup: bool, timer: bool, phase: Phase, out: seq<Output>, cleanups: nat)

  /** An emit or tick is `accepted` when `controller.enqueue` does not throw. */
  datatype Event =
    | Emit(accepted: bool)
    | Tick(accepted: bool)
    | CloseCalled
    | Returns(withCleanup: bool)
    | Throws(accepted: bool)
    | Cancelled

  function Initial(heartbeat: bool): State { State(false, false, heartbeat, Subscribing, [], 0) }

  predicate Enabled(s: State, e: Event) {
    match e
    case Emit(_) => true
    case CloseCalled => true
    case Tick(_) => s.phase == Live && s.timer
    case Returns(_) => s.phase == Subscribing
    case Throws(_) => s.phase == Subscribing
    case Cancelled => s.phase == Live
  }

  function Clear(s: State): State {
    s.(timer := false, cleanup := false, cleanups := if s.cleanup then s.cleanups + 1 else s.cleanups)
  }

  function End(s: State): State {
    if s.isClosed then s else Clear(s.(isClosed := true, out := s.out + [Closed]))
  }

  function SafeEmit(s: State, accepted: bool): State {
    if s.isClosed then s else if accepted then s.(out := s.out + [Enqueued]) else End(s)
  }

  function Next(s: State, e: Event): State {
    match e
    case Emit(accepted) => SafeEmit(s, accepted)
    case Tick(accepted) => SafeEmit(s, accepted)
    case CloseCalled => End(s)
    case Returns(withCleanup) => s.(phase := Live, cleanup := withCleanup)
    case Throws(accepted) => End(SafeEmit(s, accepted)).(phase := Live)
    case Cancelled => End(s)
  }

  /** The closures of `createSSEStream` over their shared variables. */
  class Stream {
    var isClosed: bool
    var cleanup: bool
    var timer: bool
    var phase: Phase
    var out: seq<Output>
    var cleanups: nat

    function View(): State
      reads this
    {
      State(isClosed, cleanup, timer, phase, out, cleanups)
    }

    ghost predicate Valid()
      reads this
    {
      Sound(View())
    }

    constructor (heartbeatIntervalMs: int)
      ensures Valid() && View() == Initial(heartbeatIntervalMs > 0)
    {
      isClosed, cleanup, timer, phase, out, cleanups := false, false, heartbeatIntervalMs > 0, Subscribing, [], 0;
    }

    /** Releases what is held: no timer is left, and a cleanup that was set has been called. */
    method DoClear()
      modifies this`timer, this`cleanup, this`cleanups
      ensures View() == Clear(old(View()))
    {
      if timer {
        timer := false;
      }
      if cleanup {
        cleanups := cleanups + 1;
        cleanup := false;
      }
    }

    /** Enqueues on an open stream; a rejected payload ends it; a closed stream stays as it is. */
    method Emit(accepted: bool)
      requires Valid()
      modifies this
      ensures Valid() && View() == SafeEmit(old(View()), accepted)
      ensures old(isClosed) ==> View() == old(View())
      ensures isClosed <==> old(isClosed) || !accepted
      ensures !isClosed ==> out == old(out) + [Enqueued] && cleanups == old(cleanups)
      ensures isClosed && !old(isClosed) ==> Released(old(View()), View())
    {
      if isClosed { return; }
      if accepted {
        out := out + [Enqueued];
      } else {
        isClosed := true;
        out := out + [Closed];
        DoClear();
      }
    }

    /** `close` of the controller, and `teardown`, which the stream's `cancel` calls: ends the stream, once. */
    method Close()
      requires Valid()
      modifies this
      ensures Valid() && isClosed && View() == End(old(View()))
      ensures old(isClosed) ==> View() == old(View())
      ensures !old(isClosed) ==> Released(old(View()), View())
    {
      if isClosed { return; }
      isClosed := true;
      out := out + [Closed];
      DoClear();
    }

    /** The end of `start`: `onSubscribe` returned, with or without a function, or threw. */
    method FinishStart(threw: bool, withCleanup: bool, accepted: bool)
      requires Valid() && phase == Subscribing
      modifies this
      ensures Valid() && View() == Next(old(View()), if threw then Throws(accepted) else Returns(withCleanup))
      ensures phase == Live && cleanups == 0
      ensures threw ==> isClosed && !cleanup && !timer
      ensures !threw ==> out == old(out) && cleanup == withCleanup && isClosed == old(isClosed)
    {
      if threw {
        Emit(accepted);
        Close();
      } else {
        cleanup := withCleanup;
      }
      phase := Live;
    }

    /** One event of a history, handled by the closure it stands for. */
    method Handle(e: Event)
      requires Valid() && Enabled(View(), e)
      modifies this
      ensures Valid() && View() == Next(old(View()), e)
    {
      match e {
        case Emit(accepted) => Emit(accepted);
        case Tick(accepted) => Emit(accepted);
        case CloseCalled => Close();
        case Returns(withCleanup) => FinishStart(false, withCleanup, true);
        case Throws(accepted) => FinishStart(true, false, accepted);
        case Cancelled => Close();
      }
    }
  }

  /** The step that ended the stream: one end mark, no timer, no cleanup left, one call of a cleanup that was set. */
  predicate Released(before: State, after: State) {
    && after.isClosed && after.out == before.out + [Closed]
    && !after.timer && !after.cleanup
    && after.cleanups == (if before.cleanup then before.cleanups + 1 else before.cleanups)
  }

  /** A stream that has lived through a history is in the state the machine reaches. */
  method Replay(heartbeatIntervalMs: int, events: seq<Event>) returns (stream: Stream)
    requires Possible(Initial(heartbeatIntervalMs > 0), events)
    ensures fresh(stream) && stream.Valid() && stream.View() == Run(Initial(heartbeatIntervalMs > 0), events)
    ensures stream.out == Answer(events) && stream.isClosed == Ended(events)
    ensures stream.timer == (heartbeatIntervalMs > 0 && !Ended(events))
  {
    hide Next, Enabled, Sound, Answer, Ended;
    InitialIsSound(heartbeatIntervalMs > 0);
    AnswersExactly(Initial(heartbeatIntervalMs > 0), events);
    assert [] + Answer(events) == Answer(events);
    stream := new Stream(heartbeatIntervalMs);
    assert events[0..] == events;
    for i := 0 to |events|
      invariant fresh(stream) && stream.Valid()
      invariant Possible(stream.View(), events[i..])
      invariant Run(stream.View(), events[i..]) == Run(Initial(heartbeatIntervalMs > 0), events)
    {
      assert events[i..][0] == events[i] && events[i..][1..] == events[i + 1..];
      stream.Handle(events[i]);
    }
  }

  // ---------------------------------------------------------------------------
  // Runs
  // ---------------------------------------------------------------------------

  predicate Possible(s: State, events: seq<Event>)
    decreases |events|
  {
    events == [] || (Enabled(s, events[0]) && Possible(Next(s, events[0]), events[1..]))
  }

  function Run(s: State, events: seq<Event>): State
    decreases |events|
  {
    if events == [] then s else Run(Next(s, events[0]), events[1..])
  }

  /** A `Closed` mark stands only at the end of the output of a closed stream. */
  ghost predicate Quiet(s: State) {
    && (s.isClosed <==> s.out != [] && s.out[|s.out| - 1] == Closed)
    && forall i | 0 <= i < |s.out| - 1 :: s.out[i] == Enqueued
  }

  ghost predicate Sound(s: State) {
    && Quiet(s)
    && (s.isClosed ==> !s.timer)
    && (s.phase == Subscribing ==> !s.cleanup && s.cleanups == 0)
    && s.cleanups <= 1
    && (s.cleanups == 1 ==> s.isClosed && !s.cleanup)
  }

  lemma InitialIsSound(heartbeat: bool)
    ensures Sound(Initial(heartbeat))
  {}

  lemma StepSound(s: State, e: Event)
    requires Sound(s) && Enabled(s, e)
    ensures Sound(Next(s, e))
    ensures s.isClosed ==> Next(s, e).isClosed && Next(s, e).out == s.out
  {}

  /** In every run: nothing is enqueued after the close, a closed stream has no timer, cleanup runs at most once. */
  lemma {:induction false} RunSound(s: State, events: seq<Event>)
    requires Sound(s) && Possible(s, events)
    ensures Sound(Run(s, events))
    ensures s.isClosed ==> Run(s, events).isClosed && Run(s, events).out == s.out
    decreases |events|
  {
    if events != [] {
      StepSound(s, events[0]);
      RunSound(Next(s, events[0]), events[1..]);
    }
  }

  lemma {:induction false} RunOfConcat(s: State, a: seq<Event>, b: seq<Event>)
    ensures Run(s, a + b) == Run(Run(s, a), b)
    ensures Possible(s, a + b) <==> Possible(s, a) && Possible(Run(s, a), b)
    decreases |a|
  {
    if a == [] {
      assert a + b == b;
    } else {
      assert (a + b)[1..] == a[1..] + b;
      RunOfConcat(Next(s, a[0]), a[1..], b);
    }
  }

  // ---------------------------------------------------------------------------
  // What the client gets, read off the history alone
  // ---------------------------------------------------------------------------

  /** Events that end an open stream: a rejected payload, a close, a disconnect, a failed subscription. */
  predicate Ends(e: Event) {
    e == Emit(false) || e == Tick(false) || e == CloseCalled || e == Cancelled || e.Throws?
  }

  /** Events that bring an open stream a payload; a failed subscription sends an error event. */
  predicate Delivers(e: Event) {
    e == Emit(true) || e == Tick(true) || e == Throws(true)
  }

  predicate Ended(events: seq<Event>) {
    exists i | 0 <= i < |events| :: Ends(events[i])
  }

  /** The payloads up to and including the event that ends the stream. */
  function Delivered(events: seq<Event>): nat {
    if events == [] then 0
    else
      var own := if Delivers(events[0]) then 1 else 0;
      if Ends(events[0]) then own else own + Delivered(events[1..])
  }

  function Payloads(n: nat): seq<Output> { seq(n, _ => Enqueued) }

  /** The output of a history: its payloads, then the end mark if something ended the stream. */
  function Answer(events: seq<Event>): seq<Output> {
    Payloads(Delivered(events)) + (if Ended(events) then [Closed] else [])
  }

  lemma EndedStep(events: seq<Event>)
    requires events != []
    ensures Ended(events) <==> Ends(events[0]) || Ended(events[1..])
  {
    hide Ends;
    if i :| 0 <= i < |events| && Ends(events[i]) {
      assert i > 0 ==> events[1..][i - 1] == events[i];
    }
    if i :| 0 <= i < |events[1..]| && Ends(events[1..][i]) {
      assert events[i + 1] == events[1..][i];
    }
  }

  lemma OpenStep(s: State, e: Event)
    requires !s.isClosed && Enabled(s, e)
    ensures var t := Next(s, e);
            && t.isClosed == Ends(e) && t.timer == (s.timer && !Ends(e))
            && t.out == s.out + Payloads(if Delivers(e) then 1 else 0) + (if Ends(e) then [Closed] else [])
  {
    assert Payloads(0) == [] && Payloads(1) == [Enqueued];
  }

  lemma AnswerStep(events: seq<Event>)
    requires events != []
    ensures Answer(events) == Payloads(if Delivers(events[0]) then 1 else 0) +
                              (if Ends(events[0]) then [Closed] else Answer(events[1..]))
  {
    hide Ends, Delivers;
    EndedStep(events);
    var own, rest := if Delivers(events[0]) then 1 else 0, Delivered(events[1..]);
    assert Payloads(own) + Payloads(rest) == Payloads(own + rest);
  }

  /** From an open stream on: every accepted payload before the end is sent, nothing else is, and the timer lives on. */
  lemma {:induction false} AnswersExactly(s: State, events: seq<Event>)
    requires Sound(s) && !s.isClosed && Possible(s, events)
    ensures var t := Run(s, events);
            t.out == s.out + Answer(events) && t.isClosed == Ended(events) && t.timer == (s.timer && !Ended(events))
    decreases |events|
  {
    hide Next, Enabled, Sound, Ends, Delivers, Answer, Payloads;
    if events == [] {
      NothingAnswers();
      assert s.out + [] == s.out;
    } else {
      var e, m, rest := events[0], Next(s, events[0]), events[1..];
      EndedStep(events);
      AnswerStep(events);
      OpenStep(s, e);
      StepSound(s, e);
      RunSound(m, rest);
      var own := Payloads(if Delivers(e) then 1 else 0);
      if Ends(e) {
        ClosedKeepsNoTimer(m, rest);
        assert s.out + own + [Closed] == s.out + (own + [Closed]);
      } else {
        AnswersExactly(m, rest);
        assert s.out + own + [] + Answer(rest) == s.out + (own + Answer(rest));
      }
    }
  }

  lemma NothingAnswers()
    ensures Answer([]) == [] && !Ended([])
  {}

  lemma ClosedKeepsNoTimer(s: State, events: seq<Event>)
    requires Sound(s) && s.isClosed && Possible(s, events)
    ensures !Run(s, events).timer
  {
    RunSound(s, events);
  }

  /** After `onSubscribe` returned a cleanup: it has run exactly when the stream ended, never if it had before. */
  lemma {:induction false} CleanupAfterReturn(s: State, events: seq<Event>)
    requires Sound(s) && Possible(s, events) && s.phase == Live
    requires s.cleanup && s.cleanups == 0
    ensures var s' := Run(s, events);
            && s'.phase == Live
            && s'.cleanups == (if !s.isClosed && s'.isClosed then 1 else 0)
            && (s'.cleanup <==> s'.cleanups == 0)
    decreases |events|
  {
    if events != [] {
      var m := Next(s, events[0]);
      StepSound(s, events[0]);
      if m.cleanup {
        CleanupAfterReturn(m, events[1..]);
      } else {
        NothingLeftToClean(m, events[1..]);
        RunSound(m, events[1..]);
      }
    }
  }

  lemma {:induction false} NothingLeftToClean(s: State, events: seq<Event>)
    requires Sound(s) && Possible(s, events) && s.phase == Live && !s.cleanup
    ensures var s' := Run(s, events); s'.phase == Live && !s'.cleanup && s'.cleanups == s.cleanups
    decreases |events|
  {
    if events != [] {
      StepSound(s, events[0]);
      NothingLeftToClean(Next(s, events[0]), events[1..]);
    }
  }

  /**
   * Cleanup runs exactly once in every run that ends the stream if the stream was open when `onSubscribe` returned;
   * if `onSubscribe` had already lost the stream, the returned function is stored and never called.
   */
  lemma CleanupExactlyOnce(heartbeat: bool, before: seq<Event>, after: seq<Event>)
    requires Possible(Initial(heartbeat), before + [Returns(true)] + after)
    ensures var atReturn := Run(Initial(heartbeat), before);
            var end := Run(Initial(heartbeat), before + [Returns(true)] + after);
            && end.cleanups == (if !atReturn.isClosed && end.isClosed then 1 else 0)
            && (end.isClosed ==> (end.cleanups == 1 <==> !atReturn.isClosed))
            && (atReturn.isClosed ==> end.isClosed && end.cleanup)
  {
    hide Next, Enabled;
    var s := Initial(heartbeat);
    RunOfConcat(s, before + [Returns(true)], after);
    RunOfConcat(s, before, [Returns(true)]);
    RunSound(s, before);
    var m := Run(s, before);
    OneStep(m, Returns(true));
    assert Sound(Run(m, [Returns(true)])) by { RunSound(m, [Returns(true)]); }
    CleanupAfterReturn(Run(m, [Returns(true)]), after);
    RunSound(Run(m, [Returns(true)]), after);
  }

  /** A stream closed inside `onSubscribe`: the cleanup is stored afterwards and never called. */
  lemma LostDuringSubscribe(after: seq<Event>)
    requires Possible(Initial(true), [CloseCalled, Returns(true)] + after)
    ensures Possible(Initial(true), [CloseCalled, Returns(true)])
    ensures var end := Run(Initial(true), [CloseCalled, Returns(true)] + after);
            end.isClosed && end.cleanup && end.cleanups == 0
  {
    hide Next, Enabled, Sound;
    assert [CloseCalled] + [Returns(true)] + after == [CloseCalled, Returns(true)] + after;
    CleanupExactlyOnce(true, [CloseCalled], after);
    RunOfConcat(Initial(true), [CloseCalled, Returns(true)], after);
    assert [CloseCalled][1..] == [];
    assert Run(Initial(true), [CloseCalled]) == Next(Initial(true), CloseCalled);
    assert Next(Initial(true), CloseCalled).isClosed by { ClosesAtOnce(); }
  }

  lemma ClosesAtOnce()
    ensures Next(Initial(true), CloseCalled).isClosed
  {}

  lemma OneStep(s: State, e: Event)
    requires Possible(s, [e])
    ensures Run(s, [e]) == Next(s, e) && Enabled(s, e)
    ensures Sound(s) && e == Returns(true) ==>
              Next(s, e).phase == Live && Next(s, e).cleanup && Next(s, e).cleanups == 0
              && Next(s, e).isClosed == s.isClosed
  {
    assert [e][1..] == [];
  }
}
