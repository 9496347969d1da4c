/** The runs the monitor accepts, described without the monitor. */
module TraceLanguage {
  import opened Options
  import opened TransactionTrace

  /** One operation: started, then finished, with progress reports during and after it. */
  datatype Block = Block(op: Operation, during: seq<Change>, failed: bool, after: seq<Change>)

  function Reports(cs: seq<Change>): seq<Call> {
    if cs == [] then [] else [Call(true, Changed(cs[0]))] + Reports(cs[1..])
  }

  function Start(op: Operation): Call { Call(true, NewOperation(op, op, true)) }

  function Finish(op: Operation, failed: bool): Call { Call(true, if failed then Failed(op, true) else Done(op, true)) }

  function BlockCalls(b: Block): seq<Call> {
    [Start(b.op)] + Reports(b.during) + [Finish(b.op, b.failed)] + Reports(b.after)
  }

  function BlocksCalls(bs: seq<Block>): seq<Call> {
    if bs == [] then [] else BlockCalls(bs[0]) + BlocksCalls(bs[1..])
  }

  /** A report has a status and a percentage. In progress mode it has no fewer bytes than the one before;
      with bytes it has a start time, not in the future and that of the one before if that had one. */
  predicate Continues(progress: bool, bytes: nat, start: nat, c: Change) {
    && c.hasStatus && c.percent >= 0 && c.percent <= 100
    && (progress ==> bytes <= c.bytes)
    && (progress && c.bytes > 0 ==> c.start > 0 && c.start <= c.now)
    && (progress && c.bytes > 0 && start > 0 ==> c.start == start)
  }

  lemma ContinuesIfFollows(progress: bool, bytes: nat, start: nat, c: Change)
    ensures Continues(progress, bytes, start, c) <==> Follows(progress, bytes, start, c)
  {
  }

  /** Every report follows the one before it. */
  predicate Chain(progress: bool, bytes: nat, start: nat, cs: seq<Change>)
    decreases |cs|
  {
    cs == [] || (Continues(progress, bytes, start, cs[0]) && Chain(progress, cs[0].bytes, cs[0].start, cs[1..]))
  }

  /** Each operation starts its reports anew. */
  predicate BlocksOk(progress: bool, bs: seq<Block>) {
    forall k :: 0 <= k < |bs| ==> Chain(progress, 0, 0, bs[k].during + bs[k].after)
  }

  function Ops(bs: seq<Block>): seq<Operation> {
    seq(|bs|, k requires 0 <= k < |bs| => bs[k].op)
  }

  /** Before the plan is known there are only reports and empty plans. */
  predicate IsPrelude(calls: seq<Call>) {
    forall k :: 0 <= k < |calls| ==>
      calls[k].inRun && (calls[k].event.Changed? || calls[k].event == Ready([]))
  }

  function ChangesOf(calls: seq<Call>): seq<Change> {
    if calls == [] then []
    else (if calls[0].event.Changed? then [calls[0].event.change] else []) + ChangesOf(calls[1..])
  }

  /** A run of the language: a prelude; then, if there is a plan, the plan, reports, and the
      first operations of the plan one after another, each finished before the next starts. */
  datatype Shape = Shape(prelude: seq<Call>, plan: seq<Operation>, reports: seq<Change>, blocks: seq<Block>)

  function PlanCalls(s: Shape): seq<Call> {
    [Call(true, Ready(s.plan))] + (Reports(s.reports) + BlocksCalls(s.blocks))
  }

  function ShapeCalls(s: Shape): seq<Call> {
    s.prelude + (if s.plan == [] then [] else PlanCalls(s))
  }

  predicate ShapeOk(progress: bool, s: Shape) {
    && IsPrelude(s.prelude) && BlocksOk(progress, s.blocks)
    && Chain(progress, 0, 0, ChangesOf(s.prelude) + s.reports)
    && Ops(s.blocks) <= s.plan && (s.plan == [] ==> s.reports == [])
  }

  /** A reported success runs the whole plan, and only a failure reports an error. */
  ghost predicate InLanguage(progress: bool, calls: seq<Call>, result: bool, error: bool) {
    exists s: Shape ::
      calls == ShapeCalls(s) && ShapeOk(progress, s) && error == !result && (result ==> Ops(s.blocks) == s.plan)
  }

  // ---------------------------------------------------------------------------
  // Running a concatenation

  lemma {:induction false} RunAppend(progress: bool, s: State, a: seq<Call>, b: seq<Call>)
    ensures Run(progress, s, a + b) ==
            match Run(progress, s, a) case None => None case Some(t) => Run(progress, t, b)
    decreases |a|
  {
    hide Step;
    if a == [] {
      assert a + b == b;
    } else {
      assert (a + b)[1..] == a[1..] + b;
      if Step(progress, s, a[0]).Some? {
        RunAppend(progress, Step(progress, s, a[0]).value, a[1..], b);
      }
    }
  }

  lemma {:induction false} ChainAppend(progress: bool, bytes: nat, start: nat, a: seq<Change>, b: seq<Change>)
    ensures Chain(progress, bytes, start, a + b) <==>
            Chain(progress, bytes, start, a) &&
            (if a == [] then Chain(progress, bytes, start, b)
             else Chain(progress, a[|a| - 1].bytes, a[|a| - 1].start, b))
    decreases |a|
  {
    hide Follows;
    if a == [] {
      assert a + b == b;
    } else {
      assert (a + b)[1..] == a[1..] + b;
      ChainAppend(progress, a[0].bytes, a[0].start, a[1..], b);
    }
  }

  /** The state after progress reports. */
  function AfterReports(s: State, cs: seq<Change>): State
    decreases |cs|
  {
    if cs == [] then s
    else AfterReports(s.(bytes := cs[0].bytes, start := cs[0].start, changed := (s.changed + 1) % UINT_RANGE), cs[1..])
  }

  lemma {:induction false} AfterReportsKeeps(s: State, cs: seq<Change>)
    ensures var t := AfterReports(s, cs);
            && t.operations == s.operations && t.next == s.next && t.active == s.active
            && t.started == s.started && t.finished == s.finished
            && t.bytes == (if cs == [] then s.bytes else cs[|cs| - 1].bytes)
            && t.start == (if cs == [] then s.start else cs[|cs| - 1].start)
    decreases |cs|
  {
    if cs != [] {
      AfterReportsKeeps(s.(bytes := cs[0].bytes, start := cs[0].start, changed := (s.changed + 1) % UINT_RANGE),
                        cs[1..]);
    }
  }

  lemma {:induction false} RunReports(progress: bool, s: State, cs: seq<Change>)
    requires Chain(progress, s.bytes, s.start, cs)
    ensures Run(progress, s, Reports(cs)) == Some(AfterReports(s, cs))
    decreases |cs|
  {
    hide Follows;
    if cs != [] {
      ContinuesIfFollows(progress, s.bytes, s.start, cs[0]);
      RunReports(progress, s.(bytes := cs[0].bytes, start := cs[0].start, changed := (s.changed + 1) % UINT_RANGE),
                 cs[1..]);
      assert Reports(cs)[1..] == Reports(cs[1..]);
    }
  }

  // ---------------------------------------------------------------------------
  // Every run of the language is accepted

  /** Between operations: none is active and as many finished as started. */
  predicate Idle(s: State) { s.active.None? && s.started == s.finished }

  lemma RunOne(progress: bool, s: State, c: Call, rest: seq<Call>)
    requires Step(progress, s, c).Some?
    ensures Run(progress, s, [c] + rest) == Run(progress, Step(progress, s, c).value, rest)
  {
    hide Step;
    assert ([c] + rest)[1..] == rest;
  }

  lemma RunBlock(progress: bool, s: State, b: Block) returns (t: State)
    requires Idle(s) && s.next != [] && s.next[0] == b.op && Chain(progress, 0, 0, b.during + b.after)
    ensures Run(progress, s, BlockCalls(b)) == Some(t)
    ensures Idle(t) && t.operations == s.operations && t.next == s.next[1..]
  {
    hide Run, Step, Chain, AfterReports, Reports;
    var s1 := StepStart(progress, s, b.op);
    ChainAppend(progress, 0, 0, b.during, b.after);
    RunReports(progress, s1, b.during);
    var s2 := AfterReports(s1, b.during);
    AfterReportsKeeps(s1, b.during);
    t := RunFinish(progress, s2, b.op, b.failed, b.after);
    var tail := [Finish(b.op, b.failed)] + Reports(b.after);
    RunAppend(progress, s1, Reports(b.during), tail);
    RunOne(progress, s, Start(b.op), Reports(b.during) + tail);
    assert BlockCalls(b) == [Start(b.op)] + (Reports(b.during) + tail);
  }

  lemma StepStart(progress: bool, s: State, op: Operation) returns (t: State)
    requires s.active.None? && s.next != [] && s.next[0] == op
    ensures Step(progress, s, Start(op)) == Some(t)
    ensures t.operations == s.operations && t.next == s.next[1..] && t.active == Some(op)
    ensures t.started == (s.started + 1) % UINT_RANGE && t.finished == s.finished && t.bytes == 0 && t.start == 0
  {
    t := Step(progress, s, Start(op)).value;
  }

  lemma RunFinish(progress: bool, s: State, op: Operation, failed: bool, after: seq<Change>) returns (t: State)
    requires s.active == Some(op) && s.started == (s.finished + 1) % UINT_RANGE
    requires Chain(progress, s.bytes, s.start, after)
    ensures Run(progress, s, [Finish(op, failed)] + Reports(after)) == Some(t)
    ensures Idle(t) && t.operations == s.operations && t.next == s.next
  {
    var s' := Step(progress, s, Finish(op, failed)).value;
    RunReports(progress, s', after);
    t := AfterReports(s', after);
    AfterReportsKeeps(s', after);
    hide Run, Chain, AfterReports, Reports;
    RunOne(progress, s, Finish(op, failed), Reports(after));
  }

  lemma {:induction false} RunBlocks(progress: bool, s: State, bs: seq<Block>) returns (t: State)
    requires Idle(s) && Ops(bs) <= s.next && BlocksOk(progress, bs)
    ensures Run(progress, s, BlocksCalls(bs)) == Some(t)
    ensures Idle(t) && t.operations == s.operations && t.next == s.next[|bs|..]
    decreases |bs|
  {
    hide Step, Chain, BlockCalls;
    if bs == [] {
      t := s;
    } else {
      assert Ops(bs)[0] == bs[0].op && Ops(bs)[1..] == Ops(bs[1..]);
      var u := RunBlock(progress, s, bs[0]);
      assert Ops(bs[1..]) <= u.next;
      t := RunBlocks(progress, u, bs[1..]);
      RunAppend(progress, s, BlockCalls(bs[0]), BlocksCalls(bs[1..]));
      assert s.next[1..][|bs| - 1..] == s.next[|bs|..];
    }
  }

  lemma {:induction false} RunPrelude(progress: bool, s: State, calls: seq<Call>) returns (t: State)
    requires Idle(s) && s.operations == s.next == [] && IsPrelude(calls)
    requires Chain(progress, s.bytes, s.start, ChangesOf(calls))
    ensures Run(progress, s, calls) == Some(t) && Idle(t) && t.operations == t.next == []
    ensures var cs := ChangesOf(calls);
            t.bytes == (if cs == [] then s.bytes else cs[|cs| - 1].bytes) &&
            t.start == (if cs == [] then s.start else cs[|cs| - 1].start)
    decreases |calls|
  {
    if calls == [] {
      t := s;
    } else {
      var u := Step(progress, s, calls[0]).value;
      ChangesHead(calls);
      hide Follows, ChangesOf;
      t := RunPrelude(progress, u, calls[1..]);
    }
  }

  lemma ChangesHead(calls: seq<Call>)
    requires calls != []
    ensures ChangesOf(calls) == if calls[0].event.Changed? then [calls[0].event.change] + ChangesOf(calls[1..])
                                else ChangesOf(calls[1..])
    ensures calls[0].event.Changed? ==> ChangesOf(calls)[1..] == ChangesOf(calls[1..])
  {
  }

  lemma ShapeIsAccepted(progress: bool, s: Shape, result: bool, error: bool)
    requires ShapeOk(progress, s) && error == !result && (result ==> Ops(s.blocks) == s.plan)
    ensures Accepts(progress, ShapeCalls(s), result, error)
  {
    ChainAppend(progress, 0, 0, ChangesOf(s.prelude), s.reports);
    hide Run, Step, Chain, PlanCalls, ChangesOf, IsPrelude, BlocksOk;
    var a := RunPrelude(progress, INITIAL, s.prelude);
    assert |Ops(s.blocks)| == |s.blocks|;
    if s.plan == [] {
      assert s.prelude + [] == s.prelude;
    } else {
      var d := RunPlan(progress, a, s);
      RunAppend(progress, INITIAL, s.prelude, PlanCalls(s));
    }
  }

  lemma RunPlan(progress: bool, a: State, s: Shape) returns (d: State)
    requires Idle(a) && a.operations == a.next == [] && Chain(progress, a.bytes, a.start, s.reports)
    requires BlocksOk(progress, s.blocks) && Ops(s.blocks) <= s.plan
    ensures Run(progress, a, PlanCalls(s)) == Some(d) && Idle(d) && d.next == s.plan[|s.blocks|..]
  {
    var b := Step(progress, a, Call(true, Ready(s.plan))).value;
    RunReports(progress, b, s.reports);
    var c := AfterReports(b, s.reports);
    AfterReportsKeeps(b, s.reports);
    d := RunBlocks(progress, c, s.blocks);
    hide Run, Chain, AfterReports, Reports, BlocksCalls;
    RunAppend(progress, b, Reports(s.reports), BlocksCalls(s.blocks));
    RunOne(progress, a, Call(true, Ready(s.plan)), Reports(s.reports) + BlocksCalls(s.blocks));
  }

  // ---------------------------------------------------------------------------
  // Every accepted run is in the language

  lemma RunHead(progress: bool, s: State, calls: seq<Call>, t: State) returns (u: State)
    requires Run(progress, s, calls) == Some(t) && calls != []
    ensures Step(progress, s, calls[0]) == Some(u) && Run(progress, u, calls[1..]) == Some(t)
    ensures calls == [calls[0]] + calls[1..]
  {
    hide Step;
    u := Step(progress, s, calls[0]).value;
  }

  lemma ChainCons(progress: bool, bytes: nat, start: nat, c: Change, cs: seq<Change>)
    requires Follows(progress, bytes, start, c) && Chain(progress, c.bytes, c.start, cs)
    ensures Chain(progress, bytes, start, [c] + cs)
  {
    ContinuesIfFollows(progress, bytes, start, c);
    hide Follows;
    assert ([c] + cs)[1..] == cs;
  }

  lemma {:induction false} ConsBlock(progress: bool, b: Block, rest: seq<Block>, next: seq<Operation>)
    returns (bs: seq<Block>)
    requires next != [] && next[0] == b.op && Ops(rest) <= next[1..]
    requires Chain(progress, 0, 0, b.during + b.after) && BlocksOk(progress, rest)
    ensures bs == [b] + rest && BlocksOk(progress, bs) && Ops(bs) <= next && next[1..][|rest|..] == next[|bs|..]
    ensures BlocksCalls(bs) ==
              [Start(b.op)] + (Reports(b.during) + [Finish(b.op, b.failed)] + Reports(b.after) + BlocksCalls(rest))
  {
    hide Chain, Reports;
    bs := [b] + rest;
    assert bs[1..] == rest;
    assert Ops(bs) == [b.op] + Ops(rest) && next == [next[0]] + next[1..];
  }

  lemma {:induction false} FromIdle(progress: bool, s: State, calls: seq<Call>, t: State)
    returns (cs: seq<Change>, bs: seq<Block>)
    requires s.active.None? && s.operations != [] && Run(progress, s, calls) == Some(t) && t.active.None?
    ensures calls == Reports(cs) + BlocksCalls(bs)
    ensures Chain(progress, s.bytes, s.start, cs) && BlocksOk(progress, bs)
    ensures Ops(bs) <= s.next && t.next == s.next[|bs|..]
    decreases |calls|
  {
    if calls == [] {
      cs, bs := [], [];
    } else {
      var u := RunHead(progress, s, calls, t);
      hide Run, Follows, Reports, BlocksCalls, Chain, BlocksOk, Ops;
      match calls[0].event {
        case Changed(c) =>
          var more: seq<Change>;
          more, bs := FromIdle(progress, u, calls[1..], t);
          cs := [c] + more;
          ChainCons(progress, s.bytes, s.start, c, more);
          Grouped(calls[0], Reports(more), BlocksCalls(bs));
        case NewOperation(op, _, _) =>
          var during, failed, after, rest := FromBusy(progress, u, calls[1..], t);
          cs := [];
          bs := ConsBlock(progress, Block(op, during, failed, after), rest, s.next);
          assert [] + BlocksCalls(bs) == BlocksCalls(bs);
      }
    }
  }

  lemma Grouped(c: Call, x: seq<Call>, y: seq<Call>)
    ensures [c] + (x + y) == ([c] + x) + y
  {
  }

  lemma Prefixed(c: Call, w: seq<Call>, x: seq<Call>, y: seq<Call>, z: seq<Call>)
    ensures [c] + (w + x + y + z) == ([c] + w) + x + y + z
  {
  }

  lemma Ended(c: Call, y: seq<Call>, z: seq<Call>)
    ensures [c] + (y + z) == [] + [c] + y + z
  {
  }

  lemma {:induction false} FromBusy(progress: bool, s: State, calls: seq<Call>, t: State)
    returns (during: seq<Change>, failed: bool, after: seq<Change>, bs: seq<Block>)
    requires s.active.Some? && s.operations != [] && Run(progress, s, calls) == Some(t) && t.active.None?
    ensures calls == Reports(during) + [Finish(s.active.value, failed)] + Reports(after) + BlocksCalls(bs)
    ensures Chain(progress, s.bytes, s.start, during + after) && BlocksOk(progress, bs)
    ensures Ops(bs) <= s.next && t.next == s.next[|bs|..]
    decreases |calls|
  {
    var u := RunHead(progress, s, calls, t);
    hide Run, Follows, Reports, BlocksCalls, Chain, BlocksOk, Ops;
    match calls[0].event {
      case Changed(c) =>
        var more: seq<Change>;
        more, failed, after, bs := FromBusy(progress, u, calls[1..], t);
        during := [c] + more;
        ChainCons(progress, s.bytes, s.start, c, more + after);
        assert during + after == [c] + (more + after);
        Prefixed(calls[0], Reports(more), [Finish(s.active.value, failed)], Reports(after), BlocksCalls(bs));
      case Done(op, _) =>
        after, bs := FromIdle(progress, u, calls[1..], t);
        during, failed := [], false;
        assert during + after == after;
        Ended(calls[0], Reports(after), BlocksCalls(bs));
      case Failed(op, _) =>
        after, bs := FromIdle(progress, u, calls[1..], t);
        during, failed := [], true;
        assert during + after == after;
        Ended(calls[0], Reports(after), BlocksCalls(bs));
    }
  }

  lemma {:induction false} FromStart(progress: bool, s: State, calls: seq<Call>, t: State) returns (shape: Shape)
    requires s.active.None? && s.operations == s.next == [] && Run(progress, s, calls) == Some(t) && t.active.None?
    ensures calls == ShapeCalls(shape) && IsPrelude(shape.prelude) && BlocksOk(progress, shape.blocks)
    ensures Chain(progress, s.bytes, s.start, ChangesOf(shape.prelude) + shape.reports)
    ensures Ops(shape.blocks) <= shape.plan && (shape.plan == [] ==> shape.reports == [])
    ensures t.next == shape.plan[|shape.blocks|..]
    decreases |calls|
  {
    if calls == [] {
      shape := Shape([], [], [], []);
    } else {
      var u := RunHead(progress, s, calls, t);
      hide Run, Follows, Reports, BlocksCalls, Chain, BlocksOk;
      if calls[0].event.Ready? && calls[0].event.plan != [] {
        var cs, bs := FromIdle(progress, u, calls[1..], t);
        shape := Shape([], calls[0].event.plan, cs, bs);
        assert ChangesOf([]) + cs == cs;
        assert [] + PlanCalls(shape) == PlanCalls(shape);
      } else {
        var rest := FromStart(progress, u, calls[1..], t);
        hide ShapeCalls, ChangesOf, IsPrelude, Ops;
        shape := rest.(prelude := [calls[0]] + rest.prelude);
        PreludeCons(calls[0], rest);
        if calls[0].event.Changed? {
          ChainCons(progress, s.bytes, s.start, calls[0].event.change, ChangesOf(rest.prelude) + rest.reports);
        }
      }
    }
  }

  lemma PreludeCons(c: Call, rest: Shape)
    requires IsPrelude(rest.prelude) && c.inRun && (c.event.Changed? || c.event == Ready([]))
    ensures var shape, changes := rest.(prelude := [c] + rest.prelude), ChangesOf(rest.prelude) + rest.reports;
            && IsPrelude(shape.prelude) && ShapeCalls(shape) == [c] + ShapeCalls(rest)
            && ChangesOf(shape.prelude) + shape.reports
               == if c.event.Changed? then [c.event.change] + changes else changes
  {
    hide BlocksCalls, Reports;
    assert ([c] + rest.prelude)[1..] == rest.prelude;
  }

  /** The monitor accepts exactly the runs of the language. */
  lemma {:induction false} AcceptsExactlyTheLanguage(progress: bool, calls: seq<Call>, result: bool, error: bool)
    ensures Accepts(progress, calls, result, error) <==> InLanguage(progress, calls, result, error)
  {
    hide Run, Step, Chain, ShapeCalls, BlocksOk;
    if Accepts(progress, calls, result, error) {
      var t := Run(progress, INITIAL, calls).value;
      var shape := FromStart(progress, INITIAL, calls, t);
      assert |Ops(shape.blocks)| == |shape.blocks|;
      assert result ==> Ops(shape.blocks) == shape.plan;
    }
    if InLanguage(progress, calls, result, error) {
      var s: Shape :|
        && calls == ShapeCalls(s) && ShapeOk(progress, s) && error == !result
        && (result ==> Ops(s.blocks) == s.plan);
      ShapeIsAccepted(progress, s, result, error);
    }
  }

  // ---------------------------------------------------------------------------
  // What a reader of the run sees

  function Started(calls: seq<Call>): seq<Operation> {
    if calls == [] then []
    else (if calls[0].event.NewOperation? then [calls[0].event.op] else []) + Started(calls[1..])
  }

  function Finished(calls: seq<Call>): seq<Operation> {
    if calls == [] then []
    else (if calls[0].event.Done? || calls[0].event.Failed? then [calls[0].event.op] else []) + Finished(calls[1..])
  }

  /** The plan announced by the run; empty if none is. */
  function Planned(calls: seq<Call>): seq<Operation> {
    if calls == [] then []
    else if calls[0].event.Ready? && calls[0].event.plan != [] then calls[0].event.plan
    else Planned(calls[1..])
  }

  lemma {:induction false} StartsOfRun(progress: bool, s: State, calls: seq<Call>, t: State)
    requires Run(progress, s, calls) == Some(t) && (s.operations == [] ==> s.next == [])
    ensures Started(calls) + t.next == if s.operations == [] then Planned(calls) else s.next
    decreases |calls|
  {
    if calls != [] {
      var u := RunHead(progress, s, calls, t);
      var rest := calls[1..];
      Heads(calls);
      hide Run, Follows, Started, Finished, Planned;
      StartsOfRun(progress, u, rest, t);
      if calls[0].event.NewOperation? {
        var op := calls[0].event.op;
        assert s.next == [op] + s.next[1..];
        assert ([op] + Started(rest)) + t.next == [op] + (Started(rest) + t.next);
      }
    }
  }

  lemma {:induction false} FinishesOfRun(progress: bool, s: State, calls: seq<Call>, t: State)
    requires Run(progress, s, calls) == Some(t) && t.active.None?
    ensures Finished(calls) == match s.active case Some(op) => [op] + Started(calls) case None => Started(calls)
    decreases |calls|
  {
    if calls != [] {
      var u := RunHead(progress, s, calls, t);
      Heads(calls);
      hide Run, Follows, Started, Finished, Planned;
      FinishesOfRun(progress, u, calls[1..], t);
    }
  }

  lemma Heads(calls: seq<Call>)
    requires calls != []
    ensures var e, rest := calls[0].event, calls[1..];
            && Started(calls) == (if e.NewOperation? then [e.op] + Started(rest) else Started(rest))
            && Finished(calls) == (if e.Done? || e.Failed? then [e.op] + Finished(rest) else Finished(rest))
            && Planned(calls) == (if e.Ready? && e.plan != [] then e.plan else Planned(rest))
  {
  }

  /** A run reported as a success starts and finishes every planned operation once, in
      plan order; a run reported as a failure does so for a first part of the plan. */
  lemma {:induction false} AcceptedRunFollowsPlan(progress: bool, calls: seq<Call>, result: bool, error: bool)
    requires Accepts(progress, calls, result, error)
    ensures Started(calls) <= Planned(calls) && Finished(calls) == Started(calls)
    ensures result ==> Started(calls) == Planned(calls)
  {
    var t := Run(progress, INITIAL, calls).value;
    hide Run, Started, Finished, Planned;
    StartsOfRun(progress, INITIAL, calls, t);
    FinishesOfRun(progress, INITIAL, calls, t);
  }

  // ---------------------------------------------------------------------------
  // Progress within an operation

  /** No operation starts among the calls. */
  predicate SameOperation(calls: seq<Call>) { forall k :: 0 <= k < |calls| ==> !calls[k].event.NewOperation? }

  lemma {:induction false} LaterReport(s: State, calls: seq<Call>, t: State, j: nat)
    requires Run(true, s, calls) == Some(t) && j < |calls| && calls[j].event.Changed? && SameOperation(calls[..j])
    requires s.bytes > 0 ==> s.start > 0
    ensures s.bytes <= calls[j].event.change.bytes
    ensures s.bytes > 0 ==> calls[j].event.change.start == s.start
    decreases j
  {
    var u := RunHead(true, s, calls, t);
    hide Run;
    if j > 0 {
      assert !calls[..j][0].event.NewOperation?;
      var between := calls[1..][..j - 1];
      forall k | 0 <= k < |between| ensures !between[k].event.NewOperation? {
        assert between[k] == calls[..j][k + 1];
      }
      LaterReport(u, calls[1..], t, j - 1);
    }
  }

  lemma {:induction false} LaterReports(s: State, calls: seq<Call>, t: State, i: nat, j: nat)
    requires Run(true, s, calls) == Some(t) && i < j < |calls| && SameOperation(calls[i + 1..j])
    requires calls[i].event.Changed? && calls[j].event.Changed?
    ensures var a, b := calls[i].event.change, calls[j].event.change;
            a.bytes <= b.bytes && (a.bytes > 0 ==> a.start == b.start > 0)
    decreases i
  {
    var u := RunHead(true, s, calls, t);
    hide Run;
    if i > 0 {
      assert calls[1..][i..j - 1] == calls[i + 1..j];
      LaterReports(u, calls[1..], t, i - 1, j - 1);
    } else {
      assert calls[1..][..j - 1] == calls[1..j];
      LaterReport(u, calls[1..], t, j - 1);
    }
  }

  /** In an accepted run in progress mode, of two reports with no operation started in between the
      later one never shows fewer bytes; and from the first report with bytes on, all show the
      same start time. */
  lemma {:induction false} BytesNeverDecrease(calls: seq<Call>, result: bool, error: bool, i: nat, j: nat)
    requires Accepts(true, calls, result, error) && i < j < |calls| && SameOperation(calls[i + 1..j])
    requires calls[i].event.Changed? && calls[j].event.Changed?
    ensures var a, b := calls[i].event.change, calls[j].event.change;
            a.bytes <= b.bytes && (a.bytes > 0 ==> a.start == b.start > 0)
  {
    LaterReports(INITIAL, calls, Run(true, INITIAL, calls).value, i, j);
  }
}
