/**
 * The deployment log-stream handler (`packages/server/src/server.ts`): a subscription whose container stream starts
 * asynchronously, so the stop handle and the end of the client's stream race.
 */
module LogStream {
  import Sse = SseStream

  datatype Handle = Pending | Resolved | Rejected

  /** The variables two callbacks share; `stops` and `unsubscribes` count the calls of the two release functions. */
  datatype Vars = Vars(closed: bool, containerStop: bool, stops: nat, unsubscribes: nat)

  /** `started`: `onSubscribe` got as far as asking for the container stream. */
  datatype State = State(sse: Sse.State, started: bool, vars: Vars, handle: Handle)

  datatype Event =
    | Stream(e: Sse.Event)
    | ContainerEntry(accepted: bool)
    | HandleResolves
    | HandleRejects

  const INITIAL := State(Sse.Initial(true), false, Vars(false, false, 0, 0), Pending)

  /** The promise settles in a later turn than the one `onSubscribe` runs in; the handler always returns a cleanup. */
  predicate Enabled(s: State, e: Event) {
    match e
    case Stream(e) => Sse.Enabled(s.sse, e) && e != Sse.Returns(false)
    case ContainerEntry(_) => s.started
    case HandleResolves => s.started && s.handle == Pending
    case HandleRejects => s.started && s.handle == Pending
  }

  /** The function `onSubscribe` returns. */
  function RunCleanup(v: Vars): Vars {
    v.(closed := true, unsubscribes := v.unsubscribes + 1, stops := if v.containerStop then v.stops + 1 else v.stops)
  }

  /** The `then` callback of the container stream. */
  function HandleArrives(v: Vars): Vars {
    if v.closed then v.(stops := v.stops + 1) else v.(containerStop := true)
  }

  /** A stream step, with the cleanup when the step calls it. */
  function StreamStep(s: State, e: Sse.Event): State {
    var sse := Sse.Next(s.sse, e);
    s.(sse := sse, started := s.started || e.Returns?,
       vars := if sse.cleanups > s.sse.cleanups then RunCleanup(s.vars) else s.vars)
  }

  function Next(s: State, e: Event): State {
    match e
    case Stream(e) => StreamStep(s, e)
    case ContainerEntry(accepted) => if s.vars.closed then s else StreamStep(s, Sse.Emit(accepted))
    case HandleResolves => s.(handle := Resolved, vars := HandleArrives(s.vars))
    case HandleRejects => s.(handle := Rejected)
  }

  /** One request: its stream, and the variables the callbacks of `onSubscribe` share. */
  class Handler {
    const stream: Sse.Stream
    var started: bool
    var closed: bool
    var containerStop: bool
    var stops: nat
    var unsubscribes: nat
    var handle: Handle

    function View(): State
      reads this, stream
    {
      State(stream.View(), started, Vars(closed, containerStop, stops, unsubscribes), handle)
    }

    /** The request is before, inside or past its handshake. */
    ghost predicate Valid()
      reads this, stream
    {
      var s := View();
      stream.Valid() && (Fresh(s) || Attached(s) || Orphaned(s) || Failed(s))
    }

    constructor (stream: Sse.Stream)
      requires stream.View() == Sse.Initial(true)
      ensures Valid() && this.stream == stream && View() == INITIAL
    {
      this.stream := stream;
      started, closed, containerStop, stops, unsubscribes, handle := false, false, false, 0, 0, Pending;
    }

    /** The function `onSubscribe` returns: afterwards a handle that has arrived is stopped, a later one will be. */
    method Cleanup()
      modifies this`closed, this`stops, this`unsubscribes
      ensures View() == old(View()).(vars := RunCleanup(old(View()).vars))
      ensures closed && unsubscribes == old(unsubscribes) + 1
      ensures containerStop ==> stops == old(stops) + 1
    {
      closed := true;
      unsubscribes := unsubscribes + 1;
      if containerStop {
        stops := stops + 1;
      }
    }

    /** The `then` callback: after it every handle that arrived on a closed request has been stopped. */
    method OnHandle()
      requires Valid() && Enabled(View(), HandleResolves)
      modifies this`stops, this`containerStop, this`handle
      ensures Valid() && View() == Next(old(View()), HandleResolves)
      ensures Attached(View()) ==> stops == (if stream.isClosed then 1 else 0)
    {
      handle := Resolved;
      if closed {
        stops := stops + 1;
      } else {
        containerStop := true;
      }
    }

    /** An event of the stream, with the cleanup when the stream calls it. */
    method OnStream(e: Sse.Event)
      requires Valid() && Enabled(View(), Stream(e))
      modifies this, stream
      ensures Valid() && View() == Next(old(View()), Stream(e))
      ensures Attached(View()) && handle == Resolved && stream.isClosed ==> stops == 1 && unsubscribes == 1
    {
      ghost var before := View();
      var cleaned := stream.cleanups;
      stream.Handle(e);
      started := started || e.Returns?;
      if stream.cleanups > cleaned {
        Cleanup();
      }
      ValidStep(before, Stream(e));
    }

    /** One event of a history, handled by the callback it stands for. */
    method HandleEvent(e: Event)
      requires Valid() && Enabled(View(), e)
      modifies this, stream
      ensures Valid() && View() == Next(old(View()), e)
    {
      match e {
        case Stream(e) => OnStream(e);
        case ContainerEntry(accepted) =>
          if !closed { OnStream(Sse.Emit(accepted)); }
        case HandleResolves => OnHandle();
        case HandleRejects =>
          ghost var before := View();
          handle := Rejected;
          ValidStep(before, HandleRejects);
      }
    }
  }

  /** A request that has lived through a history is in the state the machine reaches. */
  method Replay(events: seq<Event>) returns (handler: Handler)
    requires Possible(INITIAL, events)
    ensures fresh(handler) && handler.Valid() && handler.View() == Run(INITIAL, events)
    ensures handler.stream.out == Sse.Answer(StreamEvents(events))
  {
    hide Next, Enabled, Fresh, Attached, Orphaned, Failed, Sse.Sound, StreamEvents, Sse.Answer;
    EveryEntryIsDelivered(events);
    var stream := new Sse.Stream(15000);
    handler := new Handler(stream);
    assert events[0..] == events;
    for i := 0 to |events|
      invariant fresh(handler) && fresh(handler.stream) && handler.Valid()
      invariant Possible(handler.View(), events[i..])
      invariant Run(handler.View(), events[i..]) == Run(INITIAL, events)
    {
      assert events[i..][0] == events[i] && events[i..][1..] == events[i + 1..];
      handler.HandleEvent(events[i]);
    }
  }

  // ---------------------------------------------------------------------------
  // Runs
  // ---------------------------------------------------------------------------

  predicate Possible(s: State, events: seq<Event>)
    decreases |events|
  {
    events == [] || (Enabled(s, events[0]) && Possible(Next(s, events[0]), events[1..]))
  }

  function Run(s: State, events: seq<Event>): State
    decreases |events|
  {
    if events == [] then s else Run(Next(s, events[0]), events[1..])
  }

  /** Before `onSubscribe` is over, nothing of the handshake has happened. */
  ghost predicate Fresh(s: State) {
    && Sse.Sound(s.sse) && s.sse.phase == Sse.Subscribing
    && !s.started && !s.vars.closed && !s.vars.containerStop && s.handle == Pending
    && s.vars.stops == 0 && s.vars.unsubscribes == 0
  }

  /** Subscribed on a stream that was open: the handshake in full. */
  ghost predicate Attached(s: State) {
    && Sse.Sound(s.sse) && s.sse.phase == Sse.Live && s.started
    && (s.vars.closed <==> s.sse.isClosed)
    && (s.sse.cleanup <==> !s.sse.isClosed)
    && (s.sse.cleanups == 0 <==> !s.sse.isClosed)
    && (s.handle == Resolved && !s.vars.closed ==> s.vars.containerStop)
    && (s.vars.containerStop ==> s.handle == Resolved)
    && s.vars.stops == (if s.vars.closed && s.handle == Resolved then 1 else 0)
    && s.vars.unsubscribes == (if s.vars.closed then 1 else 0)
  }

  /** Subscribed on a stream that had already ended: the cleanup will never run. */
  ghost predicate Orphaned(s: State) {
    && Sse.Sound(s.sse) && s.sse.phase == Sse.Live && s.started
    && s.sse.isClosed && s.sse.cleanup && s.sse.cleanups == 0
    && !s.vars.closed && s.vars.stops == 0 && s.vars.unsubscribes == 0
  }

  /** `onSubscribe` threw: the stream is over and nothing was acquired. */
  ghost predicate Failed(s: State) {
    && Sse.Sound(s.sse) && s.sse.phase == Sse.Live && s.sse.isClosed && !s.sse.cleanup && s.sse.cleanups == 0
    && !s.started && !s.vars.closed && !s.vars.containerStop && s.handle == Pending
    && s.vars.stops == 0 && s.vars.unsubscribes == 0
  }

  /** Every step stays in one of the four situations. */
  lemma ValidStep(s: State, e: Event)
    requires Fresh(s) || Attached(s) || Orphaned(s) || Failed(s)
    requires Enabled(s, e)
    ensures var t := Next(s, e); Fresh(t) || Attached(t) || Orphaned(t) || Failed(t)
  {
    if Attached(s) {
      AttachedStep(s, e);
    } else if Fresh(s) {
      FreshStep(s, e);
    } else if Orphaned(s) {
      OrphanedStep(s, e);
    }
  }

  lemma OrphanedStep(s: State, e: Event)
    requires Orphaned(s) && Enabled(s, e)
    ensures Orphaned(Next(s, e))
  {}

  lemma AttachedStep(s: State, e: Event)
    requires Attached(s) && Enabled(s, e)
    ensures Attached(Next(s, e)) && (s.vars.closed ==> Next(s, e).sse.out == s.sse.out)
  {}

  lemma {:induction false} AttachedRun(s: State, events: seq<Event>)
    requires Attached(s) && Possible(s, events)
    ensures Attached(Run(s, events))
    decreases |events|
  {
    if events != [] {
      AttachedStep(s, events[0]);
      AttachedRun(Next(s, events[0]), events[1..]);
    }
  }

  lemma {:induction false} OrphanedRun(s: State, events: seq<Event>)
    requires Orphaned(s) && Possible(s, events)
    ensures Orphaned(Run(s, events))
    decreases |events|
  {
    if events != [] {
      OrphanedStep(s, events[0]);
      OrphanedRun(Next(s, events[0]), events[1..]);
    }
  }

  lemma FreshStep(s: State, e: Event)
    requires Fresh(s) && Enabled(s, e)
    ensures var t := Next(s, e);
            if t.sse.phase == Sse.Subscribing then Fresh(t)
            else if e == Stream(Sse.Returns(true)) then (if s.sse.isClosed then Orphaned(t) else Attached(t))
            else Failed(t)
  {}

  lemma {:induction false} FreshRun(s: State, events: seq<Event>)
    requires Fresh(s) && Possible(s, events) && Run(s, events).sse.phase == Sse.Subscribing
    ensures Fresh(Run(s, events))
    decreases |events|
  {
    if events != [] {
      FreshStep(s, events[0]);
      if Next(s, events[0]).sse.phase == Sse.Subscribing {
        FreshRun(Next(s, events[0]), events[1..]);
      } else {
        StaysLive(Next(s, events[0]), events[1..]);
      }
    }
  }

  lemma {:induction false} StaysLive(s: State, events: seq<Event>)
    requires s.sse.phase == Sse.Live && Possible(s, events)
    ensures Run(s, events).sse.phase == Sse.Live
    decreases |events|
  {
    if events != [] {
      StaysLive(Next(s, events[0]), events[1..]);
    }
  }

  lemma {:induction false} RunOfConcat(s: State, a: seq<Event>, b: seq<Event>)
    ensures Run(s, a + b) == Run(Run(s, a), b)
    ensures Possible(s, a + b) <==> Possible(s, a) && Possible(Run(s, a), b)
    decreases |a|
  {
    if a == [] {
      assert a + b == b;
    } else {
      assert (a + b)[1..] == a[1..] + b;
      RunOfConcat(Next(s, a[0]), a[1..], b);
    }
  }

  /**
   * The race: on a stream open when `onSubscribe` returned, the container handle is stopped exactly once as soon as
   * both the stream has ended and the handle has resolved, in either order, and never otherwise. On a stream lost
   * during `onSubscribe` it is never stopped.
   */
  lemma HandleStoppedExactlyOnce(before: seq<Event>, after: seq<Event>)
    requires Possible(INITIAL, before + [Stream(Sse.Returns(true))] + after)
    ensures var atReturn := Run(INITIAL, before);
            var end := Run(INITIAL, before + [Stream(Sse.Returns(true))] + after);
            && end.vars.stops == (if !atReturn.sse.isClosed && end.sse.isClosed && end.handle == Resolved then 1 else 0)
            && end.vars.unsubscribes == (if !atReturn.sse.isClosed && end.sse.isClosed then 1 else 0)
  {
    hide Next, Enabled, Sse.Sound;
    var returned := Stream(Sse.Returns(true));
    RunOfConcat(INITIAL, before + [returned], after);
    RunOfConcat(INITIAL, before, [returned]);
    var m := Run(INITIAL, before);
    assert [returned][1..] == [];
    assert Run(m, [returned]) == Next(m, returned);
    assert Enabled(m, returned);
    ReturnsNeedsSubscribing(m);
    InitialIsFresh();
    FreshRun(INITIAL, before);
    FreshStep(m, returned);
    ReturnsGoesLive(m);
    if m.sse.isClosed {
      OrphanedRun(Next(m, returned), after);
    } else {
      AttachedRun(Next(m, returned), after);
    }
  }

  lemma InitialIsFresh()
    ensures Fresh(INITIAL)
  {}

  lemma ReturnsNeedsSubscribing(s: State)
    requires Enabled(s, Stream(Sse.Returns(true)))
    ensures s.sse.phase == Sse.Subscribing
  {}

  lemma ReturnsGoesLive(s: State)
    ensures Next(s, Stream(Sse.Returns(true))).sse.phase == Sse.Live
  {}

  // ---------------------------------------------------------------------------
  // What the client gets
  // ---------------------------------------------------------------------------

  /** A container entry is a payload like any other; the handle sends none. */
  function StreamEvents(events: seq<Event>): seq<Sse.Event> {
    if events == [] then []
    else
      var rest := StreamEvents(events[1..]);
      match events[0]
      case Stream(e) => [e] + rest
      case ContainerEntry(accepted) => [Sse.Emit(accepted)] + rest
      case _ => rest
  }

  /** The stream lives through the payload events of the request, container entries included. */
  lemma {:induction false} RunProjects(s: State, events: seq<Event>)
    requires Possible(s, events) && (s.vars.closed ==> s.sse.isClosed)
    ensures Sse.Possible(s.sse, StreamEvents(events))
    ensures Run(s, events).sse == Sse.Run(s.sse, StreamEvents(events))
    decreases |events|
  {
    if events != [] {
      ProjectStep(s, events[0]);
      RunProjects(Next(s, events[0]), events[1..]);
      var all, rest := StreamEvents(events), StreamEvents(events[1..]);
      assert all != rest ==> all[1..] == rest;
    }
  }

  lemma ProjectStep(s: State, e: Event)
    requires Enabled(s, e) && (s.vars.closed ==> s.sse.isClosed)
    ensures var t := Next(s, e);
            && (t.vars.closed ==> t.sse.isClosed)
            && (match e
                case Stream(f) => Sse.Enabled(s.sse, f) && t.sse == Sse.Next(s.sse, f)
                case ContainerEntry(a) => t.sse == Sse.Next(s.sse, Sse.Emit(a))
                case _ => t.sse == s.sse)
  {}

  /**
   * In every run the client gets one payload for each accepted emit, tick, error event and container entry up to the
   * end of the stream, in order, and the stream is over exactly when something ended it.
   */
  lemma EveryEntryIsDelivered(events: seq<Event>)
    requires Possible(INITIAL, events)
    ensures var t := Run(INITIAL, events).sse;
            t.out == Sse.Answer(StreamEvents(events)) && t.isClosed == Sse.Ended(StreamEvents(events))
  {
    hide Sse.Answer, Sse.Ended, Sse.Sound, StreamEvents, Next, Enabled;
    RunProjects(INITIAL, events);
    Sse.InitialIsSound(true);
    Sse.AnswersExactly(Sse.Initial(true), StreamEvents(events));
    assert [] + Sse.Answer(StreamEvents(events)) == Sse.Answer(StreamEvents(events));
  }

  lemma {:induction false} StreamEventsOfConcat(a: seq<Event>, b: seq<Event>)
    ensures StreamEvents(a + b) == StreamEvents(a) + StreamEvents(b)
  {
    if a == [] {
      assert a + b == b;
    } else {
      assert (a + b)[1..] == a[1..] + b;
      StreamEventsOfConcat(a[1..], b);
    }
  }

  /** A container entry the client rejects ends the stream of an attached request and releases bus and handle. */
  lemma RejectedEntryReleases(before: seq<Event>, first: seq<Event>, rest: seq<Event>)
    requires var events := before + [Stream(Sse.Returns(true))] + (first + [ContainerEntry(false)] + rest);
             Possible(INITIAL, events) && !Sse.Ended(StreamEvents(before))
    ensures var end := Run(INITIAL, before + [Stream(Sse.Returns(true))] + (first + [ContainerEntry(false)] + rest));
            && end.sse.isClosed && end.vars.unsubscribes == 1
            && end.vars.stops == (if end.handle == Resolved then 1 else 0)
  {
    hide StreamEvents, Next, Enabled, Run, Possible, Sse.Ended, Sse.Answer;
    var returned, after := Stream(Sse.Returns(true)), first + [ContainerEntry(false)] + rest;
    var events := before + [returned] + after;
    HandleStoppedExactlyOnce(before, after);
    RunOfConcat(INITIAL, before + [returned], after);
    RunOfConcat(INITIAL, before, [returned]);
    EveryEntryIsDelivered(before);
    EveryEntryIsDelivered(events);
    RejectedEntryEnds(before + [returned] + first, rest);
    assert events == before + [returned] + first + [ContainerEntry(false)] + rest;
  }

  lemma RejectedEntryEnds(a: seq<Event>, b: seq<Event>)
    ensures Sse.Ended(StreamEvents(a + [ContainerEntry(false)] + b))
  {
    StreamEventsOfConcat(a + [ContainerEntry(false)], b);
    StreamEventsOfConcat(a, [ContainerEntry(false)]);
    assert [ContainerEntry(false)][1..] == [];
    var all := StreamEvents(a + [ContainerEntry(false)] + b);
    assert all[|StreamEvents(a)|] == Sse.Emit(false);
  }

  /** The handle is what its promise has settled to in the history. */
  lemma {:induction false} HandleSettles(s: State, events: seq<Event>)
    requires Possible(s, events)
    ensures Run(s, events).handle ==
            if s.handle != Pending then s.handle
            else if HandleResolves in events then Resolved
            else if HandleRejects in events then Rejected else Pending
    decreases |events|
  {
    if events != [] {
      HandleSettles(Next(s, events[0]), events[1..]);
      assert events == [events[0]] + events[1..];
      if s.handle != Pending { SettlesOnce(s, events); }
      if Next(s, events[0]).handle != Pending { SettlesOnce(Next(s, events[0]), events[1..]); }
    }
  }

  lemma {:induction false} SettlesOnce(s: State, events: seq<Event>)
    requires Possible(s, events) && s.handle != Pending
    ensures HandleResolves !in events && HandleRejects !in events
    decreases |events|
  {
    if events != [] {
      SettlesOnce(Next(s, events[0]), events[1..]);
      assert events == [events[0]] + events[1..];
    }
  }
}
