/** The monitor of transaction callbacks: its assertions define a language of runs.
    The fields of the trace are those the callbacks update, and a failed assertion is
    a result. */
module TransactionTrace {
  import opened Options

  /** Operations are told apart by identity. */
  type Operation = int

  const UINT_RANGE := 0x1_0000_0000

  /** What a progress report shows; times are in microseconds. */
  datatype Change = Change(hasStatus: bool, percent: int, bytes: nat, start: nat, now: nat)

  datatype Event =
    | Ready(plan: seq<Operation>)
    | NewOperation(op: Operation, current: Operation, hasProgress: bool)
    | Changed(change: Change)
    | Done(op: Operation, commitMatches: bool)
    | Failed(op: Operation, errorReported: bool)

  /** A callback, and whether it arrives during the run and on the thread of the run. */
  datatype Call = Call(inRun: bool, event: Event)

  /** `next` is what remains of the planned operations. */
  datatype State = State(operations: seq<Operation>, next: seq<Operation>, active: Option<Operation>,
                         started: nat, finished: nat, changed: nat, bytes: nat, start: nat)

  const INITIAL := State([], [], None, 0, 0, 0, 0, 0)

  /** In progress mode bytes never decrease and the start time, once known, stays. */
  predicate Follows(progress: bool, bytes: nat, start: nat, c: Change) {
    && c.hasStatus && 0 <= c.percent <= 100
    && (progress ==>
          && c.bytes >= bytes
          && (c.bytes > 0 ==> 0 < c.start <= c.now && (start != 0 ==> c.start == start)))
  }

  function Step(progress: bool, s: State, call: Call): Option<State> {
    if !call.inRun then None
    else
      match call.event
      case Ready(plan) =>
        if s.operations != [] then None else Some(s.(operations := plan, next := plan))
      case NewOperation(op, current, hasProgress) =>
        if s.active.Some? || s.next == [] || s.next[0] != op || current != op || !hasProgress then None
        else Some(s.(next := s.next[1..], active := Some(op), started := (s.started + 1) % UINT_RANGE,
                     bytes := 0, start := 0))
      case Changed(c) =>
        if !Follows(progress, s.bytes, s.start, c) then None
        else Some(s.(bytes := c.bytes, start := c.start, changed := (s.changed + 1) % UINT_RANGE))
      case Done(op, commitMatches) =>
        if s.active != Some(op) || !commitMatches then None
        else Some(s.(active := None, finished := (s.finished + 1) % UINT_RANGE))
      case Failed(op, errorReported) =>
        if s.active != Some(op) || !errorReported then None
        else Some(s.(active := None, finished := (s.finished + 1) % UINT_RANGE))
  }

  function Run(progress: bool, s: State, calls: seq<Call>): Option<State>
    decreases |calls|
  {
    if calls == [] then Some(s)
    else match Step(progress, s, calls[0])
         case None => None
         case Some(t) => Run(progress, t, calls[1..])
  }

  /** The checks after the run. */
  predicate Closes(s: State, result: bool, error: bool) {
    s.active.None? && s.started == s.finished && (if result then !error && s.next == [] else error)
  }

  predicate Accepts(progress: bool, calls: seq<Call>, result: bool, error: bool) {
    var r := Run(progress, INITIAL, calls);
    r.Some? && Closes(r.value, result, error)
  }

  // ---------------------------------------------------------------------------
  // The monitor

  /** Its methods return false where the assertion of a callback fails. */
  class Trace {
    const progress: bool
    var operations: seq<Operation>
    var next: seq<Operation>
    var active: Option<Operation>
    var started: nat
    var finished: nat
    var changed: nat
    var bytes: nat
    var start: nat

    constructor (progress: bool)
      ensures this.progress == progress && View() == INITIAL
    {
      this.progress := progress;
      operations, next, active := [], [], None;
      started, finished, changed, bytes, start := 0, 0, 0, 0, 0;
    }

    ghost function View(): State
      reads this
    {
      State(operations, next, active, started, finished, changed, bytes, start)
    }

    method OnReady(inRun: bool, plan: seq<Operation>) returns (ok: bool)
      modifies this
      ensures ok <==> Step(progress, old(View()), Call(inRun, Ready(plan))).Some?
      ensures ok ==> View() == Step(progress, old(View()), Call(inRun, Ready(plan))).value
    {
      if !inRun || operations != [] {
        return false;
      }
      operations := plan;
      next := operations;
      return true;
    }

    method OnNewOperation(inRun: bool, op: Operation, current: Operation, hasProgress: bool) returns (ok: bool)
      modifies this
      ensures var r := Step(progress, old(View()), Call(inRun, NewOperation(op, current, hasProgress)));
              (ok <==> r.Some?) && (ok ==> View() == r.value)
    {
      if !inRun || active.Some? || next == [] || next[0] != op || current != op || !hasProgress {
        return false;
      }
      next := next[1..];
      active := Some(op);
      started := (started + 1) % UINT_RANGE;
      bytes, start := 0, 0;
      return true;
    }

    method OnChanged(inRun: bool, c: Change) returns (ok: bool)
      modifies this
      ensures var r := Step(progress, old(View()), Call(inRun, Changed(c)));
              (ok <==> r.Some?) && (ok ==> View() == r.value)
    {
      if !inRun || !c.hasStatus || c.percent < 0 || c.percent > 100 {
        return false;
      }
      if progress {
        if c.bytes < bytes {
          return false;
        }
        if c.bytes > 0 {
          if c.start == 0 || c.start > c.now || (start != 0 && c.start != start) {
            return false;
          }
        }
      }
      bytes, start := c.bytes, c.start;
      changed := (changed + 1) % UINT_RANGE;
      return true;
    }

    method OnDone(inRun: bool, op: Operation, commitMatches: bool) returns (ok: bool)
      modifies this
      ensures var r := Step(progress, old(View()), Call(inRun, Done(op, commitMatches)));
              (ok <==> r.Some?) && (ok ==> View() == r.value)
    {
      if !inRun || active != Some(op) || !commitMatches {
        return false;
      }
      active := None;
      finished := (finished + 1) % UINT_RANGE;
      return true;
    }

    method OnFailed(inRun: bool, op: Operation, errorReported: bool) returns (ok: bool)
      modifies this
      ensures var r := Step(progress, old(View()), Call(inRun, Failed(op, errorReported)));
              (ok <==> r.Some?) && (ok ==> View() == r.value)
    {
      if !inRun || active != Some(op) || !errorReported {
        return false;
      }
      active := None;
      finished := (finished + 1) % UINT_RANGE;
      return true;
    }
  }

  /** A whole run: the callbacks in order, then the final checks. */
  method Monitor(progress: bool, calls: seq<Call>, result: bool, error: bool) returns (ok: bool)
    ensures ok <==> Accepts(progress, calls, result, error)
  {
    hide Step;
    var trace := new Trace(progress);
    for i := 0 to |calls|
      invariant trace.progress == progress
      invariant Run(progress, INITIAL, calls) == Run(progress, trace.View(), calls[i..])
    {
      assert calls[i..][0] == calls[i] && calls[i..][1..] == calls[i + 1..];
      match calls[i].event {
        case Ready(plan) => ok := trace.OnReady(calls[i].inRun, plan);
        case NewOperation(op, current, hasProgress) =>
          ok := trace.OnNewOperation(calls[i].inRun, op, current, hasProgress);
        case Changed(c) => ok := trace.OnChanged(calls[i].inRun, c);
        case Done(op, commitMatches) => ok := trace.OnDone(calls[i].inRun, op, commitMatches);
        case Failed(op, errorReported) => ok := trace.OnFailed(calls[i].inRun, op, errorReported);
      }
      if !ok {
        return false;
      }
    }
    ok := trace.active.None? && trace.started == trace.finished &&
          (if result then !error && trace.next == [] else error);
  }
}
