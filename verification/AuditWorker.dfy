/** The asynchronous audit log of `internal/services/audit_service.go`: many producers that
    never block, one bounded channel, one worker that drains it when its context is cancelled. */
module AuditWorker {
  const CAPACITY := 1000

  datatype Event = Event(id: string, eventId: string, timestamp: int, organizationId: string, detail: string)

  const SYSTEM_ORGANIZATION := "00000000-0000-0000-0000-000000000000"

  /** What LogEvent queues: missing fields are filled in, a zero timestamp being missing. */
  function Filled(e: Event, newId: string, newEventId: string, now: int): Event {
    Event(if e.id == "" then newId else e.id,
          if e.eventId == "" then newEventId else e.eventId,
          if e.timestamp == 0 then now else e.timestamp,
          if e.organizationId == "" then SYSTEM_ORGANIZATION else e.organizationId,
          e.detail)
  }

  /** Where the worker is; `Logging` holds the event it has received but not yet logged. */
  datatype Worker =
    | Waiting
    | Logging(event: Event, draining: bool)
    | Draining
    | Drained
    | Done

  datatype State = State(buffer: seq<Event>, worker: Worker, cancelled: bool, logged: seq<Event>)

  datatype Step =
    | Send(event: Event)
    | Cancel
    | Receive
    | Log
    | SeeCancel
    | DrainEmpty
    | CloseDone

  const INITIAL := State([], Waiting, false, [])

  predicate WorkerStep(step: Step) {
    !step.Send? && !step.Cancel?
  }

  /** Both selects of the worker receive; only the draining one gives up on an empty channel. */
  predicate Enabled(s: State, step: Step) {
    match step
    case Send(_) => true
    case Cancel => true
    case Receive => s.buffer != [] && (s.worker.Waiting? || s.worker.Draining?)
    case Log => s.worker.Logging?
    case SeeCancel => s.worker.Waiting? && s.cancelled
    case DrainEmpty => s.worker.Draining? && s.buffer == []
    case CloseDone => s.worker.Drained?
  }

  /** A send is accepted unless the channel is full. */
  predicate Accepts(s: State, step: Step) {
    step.Send? && |s.buffer| < CAPACITY
  }

  function Next(s: State, step: Step): State {
    if !Enabled(s, step) then s
    else
      match step
      case Send(e) => if Accepts(s, step) then s.(buffer := s.buffer + [e]) else s
      case Cancel => s.(cancelled := true)
      case Receive => s.(buffer := s.buffer[1..], worker := Logging(s.buffer[0], s.worker.Draining?))
      case Log =>
        s.(worker := if s.worker.draining then Draining else Waiting, logged := s.logged + [s.worker.event])
      case SeeCancel => s.(worker := Draining)
      case DrainEmpty => s.(worker := Drained)
      case CloseDone => s.(worker := Done)
  }

  function After(s: State, steps: seq<Step>): State {
    if steps == [] then s else Next(After(s, steps[..|steps| - 1]), steps[|steps| - 1])
  }

  // ---- conservation -----------------------------------------------------------------------

  function Issued(steps: seq<Step>): seq<Event> {
    if steps == [] then []
    else
      var last := steps[|steps| - 1];
      Issued(steps[..|steps| - 1]) + if last.Send? then [last.event] else []
  }

  /** The sends of a run that found room in the channel, and those that did not. */
  function Accepted(s: State, steps: seq<Step>): seq<Event> {
    if steps == [] then []
    else
      var shorter, last := steps[..|steps| - 1], steps[|steps| - 1];
      Accepted(s, shorter) + if Accepts(After(s, shorter), last) then [last.event] else []
  }

  function Dropped(s: State, steps: seq<Step>): seq<Event> {
    if steps == [] then []
    else
      var shorter, last := steps[..|steps| - 1], steps[|steps| - 1];
      Dropped(s, shorter) + if last.Send? && !Accepts(After(s, shorter), last) then [last.event] else []
  }

  /** The event the worker holds, if any. */
  function Held(w: Worker): seq<Event> {
    if w.Logging? then [w.event] else []
  }

  /** Events on their way: logged, being logged, queued. */
  function Carried(s: State): seq<Event> {
    s.logged + Held(s.worker) + s.buffer
  }

  lemma StepCarries(s: State, step: Step)
    ensures Carried(Next(s, step)) == Carried(s) + if Accepts(s, step) then [step.event] else []
  {
    if Enabled(s, step) && step.Receive? {
      assert s.buffer == [s.buffer[0]] + s.buffer[1..];
    }
  }

  /** Over every interleaving: what was carried and what is accepted is, in this order, what is
      logged, being logged and queued. */
  lemma {:induction false} Fifo(s: State, steps: seq<Step>)
    ensures Carried(After(s, steps)) == Carried(s) + Accepted(s, steps)
    decreases |steps|
  {
    if steps == [] {
    } else {
      Fifo(s, steps[..|steps| - 1]);
      StepCarries(After(s, steps[..|steps| - 1]), steps[|steps| - 1]);
    }
  }

  /** Every issued event is accepted or dropped. */
  lemma {:induction false} SendsPartition(s: State, steps: seq<Step>)
    ensures multiset(Issued(steps)) == multiset(Accepted(s, steps)) + multiset(Dropped(s, steps))
    decreases |steps|
  {
    if steps == [] {
    } else {
      SendsPartition(s, steps[..|steps| - 1]);
    }
  }

  /** The channel never exceeds its capacity, and the next send is dropped exactly when it is full. */
  lemma {:induction false} DropsOnlyWhenFull(s: State, steps: seq<Step>, e: Event)
    requires |s.buffer| <= 1000
    ensures |After(s, steps).buffer| <= 1000
    ensures !Accepts(After(s, steps), Send(e)) <==> |After(s, steps).buffer| == 1000
    ensures Next(After(s, steps), Send(e)).buffer ==
            if |After(s, steps).buffer| == 1000 then After(s, steps).buffer else After(s, steps).buffer + [e]
    decreases |steps|
  {
    if steps == [] {
    } else {
      DropsOnlyWhenFull(s, steps[..|steps| - 1], e);
    }
  }

  // ---- shutdown ---------------------------------------------------------------------------

  /** Bounds the worker steps left once nobody sends. */
  function Remaining(s: State): nat {
    2 * |s.buffer| +
    match s.worker
    case Waiting => 3
    case Logging(_, draining) => if draining then 3 else 4
    case Draining => 2
    case Drained => 1
    case Done => 0
  }

  lemma WorkerAdvances(s: State, step: Step)
    requires WorkerStep(step) && Enabled(s, step)
    ensures Remaining(Next(s, step)) < Remaining(s)
  {
  }

  /** A cancelled worker that is not done can always move. */
  lemma WorkerNeverStuck(s: State)
    requires s.cancelled && !s.worker.Done?
    ensures exists step :: WorkerStep(step) && Enabled(s, step)
  {
    match s.worker
    case Waiting => assert Enabled(s, SeeCancel);
    case Logging(_, _) => assert Enabled(s, Log);
    case Draining => assert s.buffer != [] ==> Enabled(s, Receive);
                     assert s.buffer == [] ==> Enabled(s, DrainEmpty);
    case Drained => assert Enabled(s, CloseDone);
  }

  /** Every step is an enabled move of the worker. */
  predicate WorkerRun(s: State, steps: seq<Step>) {
    steps == [] ||
    var shorter, last := steps[..|steps| - 1], steps[|steps| - 1];
    WorkerRun(s, shorter) && WorkerStep(last) && Enabled(After(s, shorter), last)
  }

  lemma ExtendWorkerRun(s: State, steps: seq<Step>, step: Step)
    requires WorkerRun(s, steps) && WorkerStep(step) && Enabled(After(s, steps), step)
    ensures WorkerRun(s, steps + [step]) && After(s, steps + [step]) == Next(After(s, steps), step)
  {
    assert (steps + [step])[..|steps|] == steps;
  }

  lemma DrainOne(s: State, steps: seq<Step>)
    requires WorkerRun(s, steps) && After(s, steps).worker == Draining && After(s, steps).buffer != []
    ensures var t := After(s, steps);
            && WorkerRun(s, steps + [Receive] + [Log])
            && After(s, steps + [Receive] + [Log]) ==
               State(t.buffer[1..], Draining, t.cancelled, t.logged + [t.buffer[0]])
  {
    ExtendWorkerRun(s, steps, Receive);
    ExtendWorkerRun(s, steps + [Receive], Log);
  }

  /** Cancellation with no sends after it: any run of worker moves is bounded, one that cannot be
      continued has closed `done`, and then everything queued has been logged, in order. */
  lemma {:induction false} DrainTerminates(s: State, steps: seq<Step>)
    requires s.cancelled && WorkerRun(s, steps)
    ensures |steps| + Remaining(After(s, steps)) <= Remaining(s)
    ensures After(s, steps).cancelled
    ensures Carried(After(s, steps)) == Carried(s)
    ensures s.worker != Done && s.worker != Drained && After(s, steps).worker in {Drained, Done} ==>
            After(s, steps).buffer == []
    ensures !After(s, steps).worker.Done? ==> exists step :: WorkerStep(step) && Enabled(After(s, steps), step)
    decreases |steps|
  {
    if steps == [] {
    } else {
      var shorter, last := steps[..|steps| - 1], steps[|steps| - 1];
      DrainTerminates(s, shorter);
      WorkerAdvances(After(s, shorter), last);
      StepCarries(After(s, shorter), last);
    }
    if !After(s, steps).worker.Done? {
      WorkerNeverStuck(After(s, steps));
    }
  }

  lemma {:induction false} RunToDone(s: State, steps: seq<Step>) returns (longer: seq<Step>)
    requires s.cancelled && WorkerRun(s, steps)
    ensures WorkerRun(s, longer) && After(s, longer).worker.Done?
    decreases Remaining(After(s, steps))
  {
    var t := After(s, steps);
    DrainTerminates(s, steps);
    if t.worker.Done? {
      longer := steps;
    } else {
      var step :| WorkerStep(step) && Enabled(t, step);
      WorkerAdvances(t, step);
      ExtendWorkerRun(s, steps, step);
      longer := RunToDone(s, steps + [step]);
    }
  }

  /** After a cancellation, in whatever state it comes, the worker's own moves suffice to let Stop
      return, with everything that was on its way logged in order. */
  lemma CancelLetsStopReturn(s: State) returns (steps: seq<Step>)
    requires s.worker != Done && s.worker != Drained
    ensures var t := After(Next(s, Cancel), steps);
            WorkerRun(Next(s, Cancel), steps) && t.worker.Done? && t.logged == Carried(s)
  {
    steps := RunToDone(Next(s, Cancel), []);
    DrainTerminates(Next(s, Cancel), steps);
  }

  predicate Closing(w: Worker) {
    w.Drained? || w.Done?
  }

  /** The events accepted after the worker found its channel empty for the last time. */
  function Late(s: State, steps: seq<Step>): seq<Event> {
    if steps == [] then []
    else
      var shorter, last := steps[..|steps| - 1], steps[|steps| - 1];
      Late(s, shorter) +
        if Closing(After(s, shorter).worker) && Accepts(After(s, shorter), last) then [last.event] else []
  }

  /** Once the worker has given up, the channel holds exactly the events that came too late: it
      is closed over an empty channel if and only if there were none. */
  lemma {:induction false} ClosedOverLateEvents(steps: seq<Step>)
    ensures Closing(After(INITIAL, steps).worker) ==> After(INITIAL, steps).buffer == Late(INITIAL, steps)
    ensures !Closing(After(INITIAL, steps).worker) ==> Late(INITIAL, steps) == []
    decreases |steps|
  {
    if steps == [] {
    } else {
      ClosedOverLateEvents(steps[..|steps| - 1]);
    }
  }

  /** Stop returns only after a cancellation: under a context that is never cancelled it waits
      for ever. */
  lemma {:induction false} NoCancelNoStop(steps: seq<Step>)
    requires Cancel !in steps
    ensures var t := After(INITIAL, steps);
            !t.cancelled && (t.worker.Waiting? || (t.worker.Logging? && !t.worker.draining))
    decreases |steps|
  {
    if steps == [] {
    } else {
      var shorter := steps[..|steps| - 1];
      NoCancelNoStop(shorter);
    }
  }

  // ---- the service object --------------------------------------------------------------

  class AuditService {
    var events: seq<Event>
    var logged: seq<Event>
    var worker: Worker
    var cancelled: bool

    ghost function Snapshot(): State
      reads this
    {
      State(events, worker, cancelled, logged)
    }

    constructor ()
      ensures Snapshot() == INITIAL
    {
      events, logged, worker, cancelled := [], [], Waiting, false;
    }

    /** LogEvent: fill in the event, then try to queue it. */
    method LogEvent(event: Event, newId: string, newEventId: string, now: int)
      modifies this`events
      ensures Snapshot() == Next(old(Snapshot()), Send(Filled(event, newId, newEventId, now)))
      ensures |old(events)| >= 1000 ==> events == old(events)
      ensures |old(events)| < 1000 ==>
        && |events| == |old(events)| + 1 && events[..|old(events)|] == old(events)
        && var queued := events[|old(events)|];
           && queued.detail == event.detail
           && queued.id == (if event.id != "" then event.id else newId)
           && queued.eventId == (if event.eventId != "" then event.eventId else newEventId)
           && queued.timestamp == (if event.timestamp != 0 then event.timestamp else now)
           && (event.organizationId != "" ==> queued.organizationId == event.organizationId)
           && (event.organizationId == "" ==> queued.organizationId == "00000000-0000-0000-0000-000000000000")
    {
      var e := event;
      if e.id == "" {
        e := e.(id := newId);
      }
      if e.eventId == "" {
        e := e.(eventId := newEventId);
      }
      if e.timestamp == 0 {
        e := e.(timestamp := now);
      }
      if e.organizationId == "" {
        e := e.(organizationId := SYSTEM_ORGANIZATION);
      }
      if |events| < CAPACITY {
        events := events + [e];
      }
    }

    /** drainEvents with no producer left: everything queued is logged, in order, and the moves
        it makes are a run of the worker. */
    method DrainEvents() returns (ghost steps: seq<Step>)
      requires worker == Draining
      modifies this
      ensures Snapshot() == State([], Drained, old(cancelled), old(logged) + old(events))
      ensures WorkerRun(old(Snapshot()), steps) && Snapshot() == After(old(Snapshot()), steps)
    {
      ghost var start := Snapshot();
      steps := [];
      while events != []
        invariant worker == Draining && cancelled == old(cancelled)
        invariant logged + events == old(logged) + old(events)
        invariant WorkerRun(start, steps) && Snapshot() == After(start, steps)
        decreases |events|
      {
        var event := events[0];
        DrainOne(start, steps);
        events := events[1..];
        logged := logged + [event];
        steps := steps + [Receive] + [Log];
      }
      ExtendWorkerRun(start, steps, DrainEmpty);
      worker := Drained;
      steps := steps + [DrainEmpty];
    }
  }
}
