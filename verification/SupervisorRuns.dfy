/** Whole runs of the supervisor: the order of rail and reset events, progress, and monitoring. */
module SupervisorRuns {
  import opened SupervisorSpec

  datatype Call = TurnOn(good: nat) | TurnOff | Pass(x: Inputs)

  /** The readings are those of the supervisor's own rails and resets. */
  predicate Fits(s: Sup, call: Call) {
    match call
    case TurnOn(good) => good <= |s.lines.rails|
    case TurnOff => true
    case Pass(x) => |x.ready| == |s.lines.resets|
  }

  function Do(s: Sup, c: Config, call: Call): Outcome
    requires WellFormed(s, c) && PowerInv(s) && Fits(s, call)
  {
    match call
    case TurnOn(good) => PowerOn(s, good)
    case TurnOff => PowerOff(s)
    case Pass(x) => Iteration(s, c, x)
  }

  /** Every call may be made in every state. The resets stay in order if power is not turned on twice. */
  lemma DoKeeps(s: Sup, c: Config, call: Call)
    requires WellFormed(s, c) && PowerInv(s) && Fits(s, call)
    ensures var t := Do(s, c, call).s;
            && WellFormed(t, c) && PowerInv(t)
            && |t.lines.resets| == |s.lines.resets| && |t.lines.rails| == |s.lines.rails|
            && (SequenceInv(s) && !(s.on && call.TurnOn?) ==> SequenceInv(t))
  {
    match call {
      case TurnOn(good) =>
        PowerOnKeeps(s, good);
        if SequenceInv(s) && !s.on { PowerOnWhileOff(s, good); }
      case TurnOff => PowerOffIsOff(s);
      case Pass(x) => IterationKeeps(s, c, x);
    }
  }

  /** What one pass through the main loop does, in its two halves. */
  lemma PassParts(s: Sup, c: Config, x: Inputs)
    requires WellFormed(s, c) && PowerInv(s) && |x.ready| == |s.lines.resets| && s.on
    ensures var u := UpdateResets(s, x.first, x.ready);
            && WellFormed(u.s, c) && PowerInv(u.s) && u.s.on && u.s.mon == s.mon
            && u.s.lines == Replay(s.lines, u.trace)
            && (var m := MonitorRails(u.s, c, x.good);
                && Iteration(s, c, x) == Outcome(m.s, u.trace + m.trace)
                && (m.s.on ==> m.s == u.s.(mon := m.s.mon))
                && (m.s.on <==> x.good || !(c.critical[s.mon] || c.input[s.mon]))
                && m.s.mon == (s.mon + 1) % |s.lines.rails|)
  {
    var u := UpdateResets(s, x.first, x.ready);
    UpdateKeeps(s, x.first, x.ready);
    UpdateReplays(s, x.first, x.ready);
    UpdateShape(s, x.first, x.ready);
    hide UpdateResets, PanicShutdown, PowerOff, Replay;
    MonitorKeeps(u.s, c, x.good);
  }

  lemma UpdateReplays(s: Sup, first: bool, ready: seq<bool>)
    requires |ready| == |s.lines.resets| && (s.idx < |ready| || (s.done && s.idx == |ready|))
    ensures var u := UpdateResets(s, first, ready);
            u.s.lines == Replay(s.lines, u.trace)
  {
    var a := Advance(s, first);
    ReplayJoin(s.lines, a.trace, Rollback(a.s, ready).trace);
  }

  lemma PowerOnReplays(s: Sup, good: nat)
    requires good <= |s.lines.rails|
    ensures PowerOn(s, good).s.lines == Replay(s.lines, PowerOn(s, good).trace)
  {
    if good < |s.lines.rails| {
      var up := RailsUp(good + 1);
      ReplayJoin(s.lines, up, PanicShutdown(s.(lines := Replay(s.lines, up))).trace);
    }
  }

  lemma DoReplays(s: Sup, c: Config, call: Call)
    requires WellFormed(s, c) && PowerInv(s) && Fits(s, call)
    ensures Do(s, c, call).s.lines == Replay(s.lines, Do(s, c, call).trace)
  {
    match call {
      case TurnOn(good) => PowerOnReplays(s, good);
      case TurnOff =>
      case Pass(x) => PassReplays(s, c, x);
    }
  }

  lemma PassReplays(s: Sup, c: Config, x: Inputs)
    requires WellFormed(s, c) && PowerInv(s) && |x.ready| == |s.lines.resets|
    ensures Iteration(s, c, x).s.lines == Replay(s.lines, Iteration(s, c, x).trace)
  {
    if s.on {
      hide PowerInv, UpdateResets, Iteration;
      PassParts(s, c, x);
      var u := UpdateResets(s, x.first, x.ready);
      ReplayJoin(s.lines, u.trace, MonitorRails(u.s, c, x.good).trace);
    } else {
      assert Replay(s.lines, []) == s.lines;
    }
  }

  ghost predicate AllFit(s: Sup, calls: seq<Call>) {
    forall k | 0 <= k < |calls| :: Fits(s, calls[k])
  }

  /** The first of some calls: its outcome, and the calls after it. */
  lemma FirstCall(s: Sup, c: Config, calls: seq<Call>)
    requires WellFormed(s, c) && PowerInv(s) && AllFit(s, calls) && calls != []
    ensures var o := Do(s, c, calls[0]);
            && WellFormed(o.s, c) && PowerInv(o.s) && AllFit(o.s, calls[1..])
            && o.s.lines == Replay(s.lines, o.trace)
            && (SequenceInv(s) && !(s.on && calls[0].TurnOn?) ==> SequenceInv(o.s))
  {
    hide Do, PowerInv, SequenceInv;
    DoKeeps(s, c, calls[0]);
    DoReplays(s, c, calls[0]);
    var t := Do(s, c, calls[0]).s;
    forall k | 0 <= k < |calls[1..]| ensures Fits(t, calls[1..][k]) {
      assert Fits(s, calls[k + 1]);
    }
  }

  /** Any calls, in any order. */
  ghost function RunCalls(s: Sup, c: Config, calls: seq<Call>): Outcome
    requires WellFormed(s, c) && PowerInv(s) && AllFit(s, calls)
    decreases |calls|
  {
    if calls == [] then Outcome(s, []) else
      var o := Do(s, c, calls[0]);
      FirstCall(s, c, calls);
      var r := RunCalls(o.s, c, calls[1..]);
      Outcome(r.s, o.trace + r.trace)
  }

  /** After every sequence of calls the recorded events account for every line; and when the power is
      off, every rail is off and every reset is asserted. */
  lemma {:induction false} RunHolds(s: Sup, c: Config, calls: seq<Call>)
    requires WellFormed(s, c) && PowerInv(s) && AllFit(s, calls)
    ensures var t := RunCalls(s, c, calls);
            && WellFormed(t.s, c) && PowerInv(t.s) && t.s.lines == Replay(s.lines, t.trace)
            && (!t.s.on ==> AllRails(t.s.lines, false) && ReleasedUpTo(t.s.lines, 0))
            && (t.s.on ==> AllRails(t.s.lines, true))
    decreases |calls|
  {
    if calls != [] {
      var o := Do(s, c, calls[0]);
      FirstCall(s, c, calls);
      RunHolds(o.s, c, calls[1..]);
      ReplayJoin(s.lines, o.trace, RunCalls(o.s, c, calls[1..]).trace);
    }
  }

  /** Power is only turned on while it is off. */
  ghost predicate Alternates(s: Sup, c: Config, calls: seq<Call>)
    requires WellFormed(s, c) && PowerInv(s) && AllFit(s, calls)
    decreases |calls|
  {
    calls == []
    || (FirstCall(s, c, calls);
        && !(s.on && calls[0].TurnOn?)
        && Alternates(Do(s, c, calls[0]).s, c, calls[1..]))
  }

  /** Then the order of the resets holds throughout. */
  lemma {:induction false} RunKeeps(s: Sup, c: Config, calls: seq<Call>)
    requires WellFormed(s, c) && SequenceInv(s) && AllFit(s, calls) && Alternates(s, c, calls)
    ensures SequenceInv(RunCalls(s, c, calls).s)
    decreases |calls|
  {
    if calls != [] {
      FirstCall(s, c, calls);
      RunKeeps(Do(s, c, calls[0]).s, c, calls[1..]);
    }
  }

  // ---------------------------------------------------------------- rail order

  /** The enabled rails are the first ones of the sequence. */
  predicate RailsPrefix(l: Lines) {
    forall i, j | 0 <= i < j < |l.rails| :: l.rails[j] ==> l.rails[i]
  }

  /** They are at the start of the trace and after every one of its events. */
  predicate AlwaysPrefix(l: Lines, trace: seq<Event>) {
    forall k | 0 <= k <= |trace| :: RailsPrefix(Replay(l, trace[..k]))
  }

  lemma AlwaysOne(l: Lines, trace: seq<Event>, e: Event)
    requires AlwaysPrefix(l, trace) && RailsPrefix(Apply(Replay(l, trace), e))
    ensures AlwaysPrefix(l, trace + [e])
  {
    var t := trace + [e];
    forall k | 0 <= k <= |t| ensures RailsPrefix(Replay(l, t[..k])) {
      if k <= |trace| {
        assert t[..k] == trace[..k];
      } else {
        assert t[..k] == t;
        ReplayOne(l, trace, e);
      }
    }
  }

  lemma AlwaysJoin(l: Lines, a: seq<Event>, b: seq<Event>)
    requires AlwaysPrefix(l, a) && AlwaysPrefix(Replay(l, a), b)
    ensures AlwaysPrefix(l, a + b)
  {
    forall k | 0 <= k <= |a + b| ensures RailsPrefix(Replay(l, (a + b)[..k])) {
      if k <= |a| {
        assert (a + b)[..k] == a[..k];
      } else {
        assert (a + b)[..k] == a + b[..k - |a|];
        ReplayJoin(l, a, b[..k - |a|]);
      }
    }
  }

  lemma AlwaysAtEnd(l: Lines, trace: seq<Event>)
    requires AlwaysPrefix(l, trace)
    ensures RailsPrefix(Replay(l, trace))
  {
    assert trace[..|trace|] == trace;
  }

  lemma {:induction false} UpInOrder(l: Lines, k: nat)
    requires RailsPrefix(l) && k <= |l.rails|
    ensures AlwaysPrefix(l, RailsUp(k))
    decreases k
  {
    if k > 0 {
      hide Replay, AlwaysPrefix;
      UpInOrder(l, k - 1);
      AfterRailsUp(l, k - 1);
      AlwaysOne(l, RailsUp(k - 1), RailOn(k - 1));
    }
  }

  lemma {:induction false} DownInOrder(l: Lines, i: nat)
    requires RailsPrefix(l) && i <= |l.rails|
    ensures AlwaysPrefix(l, RailsDown(|l.rails|, i))
    decreases |l.rails| - i
  {
    if i < |l.rails| {
      hide Replay, AlwaysPrefix;
      DownInOrder(l, i + 1);
      AfterRailsDown(l, i + 1);
      AlwaysOne(l, RailsDown(|l.rails|, i + 1), RailOff(i));
    }
  }

  predicate NoRailEvents(trace: seq<Event>) {
    forall e <- trace :: e.Assert? || e.Release?
  }

  lemma {:induction false} ResetsLeaveRails(l: Lines, trace: seq<Event>)
    requires NoRailEvents(trace)
    ensures Replay(l, trace).rails == l.rails
    decreases |trace|
  {
    if trace != [] {
      assert trace[|trace| - 1] in trace;
      ResetsLeaveRails(l, trace[..|trace| - 1]);
    }
  }

  lemma ResetsKeepOrder(l: Lines, trace: seq<Event>)
    requires NoRailEvents(trace) && RailsPrefix(l)
    ensures AlwaysPrefix(l, trace)
  {
    forall k | 0 <= k <= |trace| ensures RailsPrefix(Replay(l, trace[..k])) {
      ResetsLeaveRails(l, trace[..k]);
    }
  }

  lemma AssertsAreNoRails(i: nat, n: nat)
    ensures NoRailEvents(AssertUp(i, n)) && NoRailEvents(AssertDown(n, i))
  {
    AssertUpNoRails(i, n);
    AssertDownNoRails(i, n);
  }

  lemma {:induction false} AssertUpNoRails(i: nat, n: nat)
    ensures NoRailEvents(AssertUp(i, n))
  {
    if n > i { AssertUpNoRails(i, n - 1); }
  }

  lemma {:induction false} AssertDownNoRails(i: nat, n: nat)
    ensures NoRailEvents(AssertDown(n, i))
    decreases n - i
  {
    if i < n { AssertDownNoRails(i + 1, n); }
  }

  lemma PanicInOrder(s: Sup)
    requires RailsPrefix(s.lines)
    ensures AlwaysPrefix(s.lines, PanicShutdown(s).trace)
  {
    var down := RailsDown(|s.lines.rails|, 0);
    DownInOrder(s.lines, 0);
    AlwaysAtEnd(s.lines, down);
    AssertsAreNoRails(0, |s.lines.resets|);
    ResetsKeepOrder(Replay(s.lines, down), AssertUp(0, |s.lines.resets|));
    AlwaysJoin(s.lines, down, AssertUp(0, |s.lines.resets|));
  }

  lemma PowerOffInOrder(s: Sup)
    requires RailsPrefix(s.lines)
    ensures AlwaysPrefix(s.lines, PowerOff(s).trace)
  {
    var asserts := AssertDown(|s.lines.resets|, 0);
    AssertsAreNoRails(0, |s.lines.resets|);
    ResetsKeepOrder(s.lines, asserts);
    AlwaysAtEnd(s.lines, asserts);
    DownInOrder(Replay(s.lines, asserts), 0);
    AlwaysJoin(s.lines, asserts, RailsDown(|s.lines.rails|, 0));
  }

  lemma PowerOnInOrder(s: Sup, good: nat)
    requires RailsPrefix(s.lines) && good <= |s.lines.rails|
    ensures AlwaysPrefix(s.lines, PowerOn(s, good).trace)
  {
    if good < |s.lines.rails| {
      var up := RailsUp(good + 1);
      UpInOrder(s.lines, good + 1);
      AlwaysAtEnd(s.lines, up);
      var p := s.(lines := Replay(s.lines, up));
      PanicInOrder(p);
      AlwaysJoin(s.lines, up, PanicShutdown(p).trace);
    } else {
      var tail := if |s.lines.resets| > 0 then [Release(0)] else [];
      UpInOrder(s.lines, good);
      AlwaysAtEnd(s.lines, RailsUp(good));
      ResetsKeepOrder(Replay(s.lines, RailsUp(good)), tail);
      AlwaysJoin(s.lines, RailsUp(good), tail);
    }
  }

  lemma UpdateInOrder(s: Sup, first: bool, ready: seq<bool>)
    requires RailsPrefix(s.lines) && |ready| == |s.lines.resets|
    requires s.idx < |ready| || (s.done && s.idx == |ready|)
    ensures AlwaysPrefix(s.lines, UpdateResets(s, first, ready).trace)
  {
    var a := Advance(s, first);
    var r := FirstUnready(ready, a.s.idx);
    AssertsAreNoRails(r + 1, |s.lines.resets|);
    ResetsKeepOrder(s.lines, a.trace + Rollback(a.s, ready).trace);
  }

  lemma PassInOrder(s: Sup, c: Config, x: Inputs)
    requires WellFormed(s, c) && PowerInv(s) && |x.ready| == |s.lines.resets|
    ensures AlwaysPrefix(s.lines, Iteration(s, c, x).trace)
  {
    AlwaysNothing(s.lines);
    if s.on {
      hide UpdateResets, Iteration, PanicShutdown, PowerOff;
      var u := UpdateResets(s, x.first, x.ready);
      UpdateInOrder(s, x.first, x.ready);
      PassParts(s, c, x);
      PanicInOrder(u.s);
      PowerOffInOrder(u.s);
      AlwaysNothing(u.s.lines);
      AlwaysJoin(s.lines, u.trace, MonitorRails(u.s, c, x.good).trace);
    }
  }

  lemma AlwaysNothing(l: Lines)
    requires RailsPrefix(l)
    ensures AlwaysPrefix(l, [])
  {
    forall k | 0 <= k <= 0 ensures RailsPrefix(Replay(l, [][..k])) {}
  }

  /** Over every run, whatever is called when, at every single event the enabled rails are a prefix of
      the rail sequence. */
  lemma {:induction false} RunInOrder(s: Sup, c: Config, calls: seq<Call>)
    requires WellFormed(s, c) && PowerInv(s) && AllFit(s, calls)
    ensures AlwaysPrefix(s.lines, RunCalls(s, c, calls).trace)
    decreases |calls|
  {
    assert RailsPrefix(s.lines);
    if calls == [] {
      AlwaysNothing(s.lines);
    } else {
      var o := Do(s, c, calls[0]);
      FirstCall(s, c, calls);
      match calls[0] {
        case TurnOn(good) => PowerOnInOrder(s, good);
        case TurnOff => PowerOffInOrder(s);
        case Pass(x) => PassInOrder(s, c, x);
      }
      RunInOrder(o.s, c, calls[1..]);
      AlwaysJoin(s.lines, o.trace, RunCalls(o.s, c, calls[1..]).trace);
    }
  }

  // ---------------------------------------------------------------- power-down order

  lemma {:induction false} AssertDownAt(n: nat, i: nat)
    requires i <= n
    ensures var t := AssertDown(n, i);
            |t| == n - i && forall k | 0 <= k < n - i :: t[k] == Assert(n - 1 - k)
    decreases n - i
  {
    if i < n { AssertDownAt(n, i + 1); }
  }

  lemma {:induction false} RailsDownAt(n: nat, i: nat)
    requires i <= n
    ensures var t := RailsDown(n, i);
            |t| == n - i && forall k | 0 <= k < n - i :: t[k] == RailOff(n - 1 - k)
    decreases n - i
  {
    if i < n { RailsDownAt(n, i + 1); }
  }

  /** An orderly power-off asserts every reset, last line first, before any rail drops; then the
      rails drop, last rail first. */
  lemma PowerOffOrder(s: Sup, k: nat)
    requires k < |PowerOff(s).trace|
    ensures var n, m, t := |s.lines.resets|, |s.lines.rails|, PowerOff(s).trace;
            && |t| == n + m
            && t[k] == (if k < n then Assert(n - 1 - k) else RailOff(m - 1 - (k - n)))
            && (t[k].RailOff? ==> ReleasedUpTo(Replay(s.lines, t[..k]), 0))
  {
    var n, m, t := |s.lines.resets|, |s.lines.rails|, PowerOff(s).trace;
    var asserts, down := AssertDown(n, 0), RailsDown(m, 0);
    AssertDownAt(n, 0);
    RailsDownAt(m, 0);
    if k >= n {
      assert t[..k] == asserts + down[..k - n];
      ReplayJoin(s.lines, asserts, down[..k - n]);
      AfterAssertDown(s.lines, 0);
      DownLeavesResets(Replay(s.lines, asserts), down[..k - n]);
    }
  }

  /** In a panic the rails drop first, last rail first; then the resets are asserted, first line first. */
  lemma PanicOrder(s: Sup, k: nat)
    requires k < |PanicShutdown(s).trace|
    ensures var n, m, t := |s.lines.resets|, |s.lines.rails|, PanicShutdown(s).trace;
            && |t| == n + m
            && t[k] == (if k < m then RailOff(m - 1 - k) else Assert(k - m))
            && (t[k].Assert? ==> AllRails(Replay(s.lines, t[..k]), false))
  {
    var n, m, t := |s.lines.resets|, |s.lines.rails|, PanicShutdown(s).trace;
    hide AssertUp, RailsDown;
    var down, asserts := RailsDown(m, 0), AssertUp(0, n);
    RailsDownAt(m, 0);
    AssertFromAt(0, n);
    if k >= m {
      assert t[..k] == down + asserts[..k - m];
      ReplayJoin(s.lines, down, asserts[..k - m]);
      AfterRailsDown(s.lines, 0);
      hide Replay;
      ResetsLeaveRails(Replay(s.lines, down), asserts[..k - m]);
    }
  }

  /** Every event of one monitor call. A critical rail that reads bad drops the rails at once, before the
      resets; the input rail has every reset asserted before a rail drops; anything else does nothing. */
  lemma MonitorEvents(s: Sup, c: Config, good: bool)
    requires WellFormed(s, c)
    ensures var n, m, t := |s.lines.resets|, |s.lines.rails|, MonitorRails(s, c, good).trace;
            if good || !(c.critical[s.mon] || c.input[s.mon]) then
              t == [] && MonitorRails(s, c, good).s.lines == s.lines
            else
              && |t| == n + m
              && forall k | 0 <= k < n + m ::
                   t[k] == if c.critical[s.mon] then (if k < m then RailOff(m - 1 - k) else Assert(k - m))
                           else (if k < n then Assert(n - 1 - k) else RailOff(m - 1 - (k - n)))
  {
    RailsDownAt(|s.lines.rails|, 0);
    AssertDownAt(|s.lines.resets|, 0);
    AssertFromAt(0, |s.lines.resets|);
  }

  /** Every event of one update: the next line is released when the one waited for is ready, and if a device
      below the index is down, all lines after the first such are asserted, in order. */
  lemma UpdateEvents(s: Sup, first: bool, ready: seq<bool>, k: nat)
    requires |ready| == |s.lines.resets| && (s.idx < |ready| || (s.done && s.idx == |ready|))
    requires k < |UpdateResets(s, first, ready).trace|
    ensures var n, t, u := |ready|, UpdateResets(s, first, ready).trace, UpdateResets(s, first, ready).s;
            var released := if !s.done && first && s.idx + 1 < n then 1 else 0;
            && t[k] == (if k < released then Release(s.idx + 1) else Assert(u.idx + 1 + k - released))
            && |t| == released + if u.idx < s.idx || (u.idx == s.idx && !s.done && first) then n - u.idx - 1 else 0
  {
    var a := Advance(s, first);
    var asserts := Rollback(a.s, ready).trace;
    AssertFromAt(FirstUnready(ready, a.s.idx) + 1, |ready|);
    hide Replay, AssertUp;
    assert UpdateResets(s, first, ready).trace == a.trace + asserts;
  }

  lemma {:induction false} AssertFromAt(i: nat, n: nat)
    ensures |AssertUp(i, n)| == if i < n then n - i else 0
    ensures forall k | 0 <= k < |AssertUp(i, n)| :: AssertUp(i, n)[k] == Assert(i + k)
  {
    if i < n { AssertFromAt(i, n - 1); }
  }

  /** What comes first in a shutdown by the monitor: the rails after a critical one, the resets after the input one. */
  lemma MonitorOrder(s: Sup, c: Config, k: nat)
    requires WellFormed(s, c) && k < |MonitorRails(s, c, false).trace|
    ensures var t := MonitorRails(s, c, false).trace;
            var before := Replay(s.lines, t[..k]);
            && (c.critical[s.mon] && t[k].Assert? ==> AllRails(before, false))
            && (!c.critical[s.mon] && t[k].RailOff? ==> ReleasedUpTo(before, 0))
  {
    if c.critical[s.mon] {
      PanicOrder(s, k);
    } else if c.input[s.mon] {
      PowerOffOrder(s, k);
    }
  }

  /** Turning on enables the rails in order and then releases line 0. If a rail does not come up, it is the
      last that was enabled, and a panic follows. */
  lemma PowerOnEvents(s: Sup, good: nat, k: nat)
    requires good <= |s.lines.rails| && |s.lines.resets| > 0 && k < |PowerOn(s, good).trace|
    ensures var n, m, t := |s.lines.resets|, |s.lines.rails|, PowerOn(s, good).trace;
            var up := if good < m then good + 1 else good;
            && |t| == up + (if good < m then m + n else 1)
            && t[k] == if k < up then RailOn(k)
                       else if good == m then Release(0)
                       else if k < up + m then RailOff(m - 1 - (k - up)) else Assert(k - up - m)
  {
    RailsUpAt(good);
    RailsUpAt(good + 1);
    RailsDownAt(|s.lines.rails|, 0);
    AssertFromAt(0, |s.lines.resets|);
  }

  lemma {:induction false} RailsUpAt(n: nat)
    ensures |RailsUp(n)| == n && forall k | 0 <= k < n :: RailsUp(n)[k] == RailOn(k)
  {
    if n > 0 { RailsUpAt(n - 1); }
  }

  lemma {:induction false} DownLeavesResets(l: Lines, trace: seq<Event>)
    requires forall e <- trace :: e.RailOff?
    ensures Replay(l, trace).resets == l.resets
    decreases |trace|
  {
    if trace != [] { DownLeavesResets(l, trace[..|trace| - 1]); }
  }

  // ---------------------------------------------------------------- progress and monitoring

  ghost predicate InputsFit(s: Sup, inputs: seq<Inputs>) {
    forall x <- inputs :: |x.ready| == |s.lines.resets|
  }

  /** Passes through the main loop, without power calls between them. */
  ghost function Passes(s: Sup, c: Config, inputs: seq<Inputs>): (t: Sup)
    requires WellFormed(s, c) && PowerInv(s) && InputsFit(s, inputs)
    ensures WellFormed(t, c) && PowerInv(t) && |t.lines.resets| == |s.lines.resets|
    decreases |inputs|
  {
    if inputs == [] then s else
      IterationKeeps(s, c, inputs[0]);
      assert inputs[0] in inputs;
      Passes(Iteration(s, c, inputs[0]).s, c, inputs[1..])
  }

  predicate AllGood(x: Inputs) {
    x.first && x.good && forall i | 0 <= i < |x.ready| :: x.ready[i]
  }

  /** With good rails and ready devices, each pass releases one more line: the sequence is done after
      exactly as many passes as there are lines, and not before. */
  lemma {:induction false} ResetsFinish(s: Sup, c: Config, inputs: seq<Inputs>)
    requires WellFormed(s, c) && PowerInv(s) && s.on && InputsFit(s, inputs)
    requires forall x <- inputs :: AllGood(x)
    requires s.idx + |inputs| <= |s.lines.resets|
    ensures var t := Passes(s, c, inputs);
            t.on && t.idx == s.idx + |inputs| && (t.done <==> s.idx + |inputs| == |s.lines.resets|)
    decreases |inputs|
  {
    if inputs != [] {
      var x := inputs[0];
      assert x in inputs;
      UpdateKeeps(s, x.first, x.ready);
      PassParts(s, c, x);
      IterationKeeps(s, c, x);
      ResetsFinish(Iteration(s, c, x).s, c, inputs[1..]);
    }
  }

  /** Rail `bad` reads bad every time it is looked at. */
  ghost predicate StaysBad(s: Sup, c: Config, inputs: seq<Inputs>, bad: nat)
    requires WellFormed(s, c) && PowerInv(s) && InputsFit(s, inputs)
    decreases |inputs|
  {
    inputs == []
    || (assert inputs[0] in inputs; IterationKeeps(s, c, inputs[0]);
        && (s.on && s.mon == bad ==> !inputs[0].good)
        && StaysBad(Iteration(s, c, inputs[0]).s, c, inputs[1..], bad))
  }

  lemma {:induction false} OffStaysOff(s: Sup, c: Config, inputs: seq<Inputs>)
    requires WellFormed(s, c) && PowerInv(s) && InputsFit(s, inputs) && !s.on
    ensures Passes(s, c, inputs) == s
    decreases |inputs|
  {
    if inputs != [] {
      assert inputs[0] in inputs;
      OffStaysOff(s, c, inputs[1..]);
    }
  }

  /** The monitor visits one rail per pass, so every rail is visited within any `N` passes. */
  lemma {:induction false} BadRailIsFound(s: Sup, c: Config, inputs: seq<Inputs>, bad: nat, distance: nat)
    requires WellFormed(s, c) && PowerInv(s) && InputsFit(s, inputs) && bad < |s.lines.rails|
    requires StaysBad(s, c, inputs, bad) && (c.critical[bad] || c.input[bad])
    requires distance < |inputs|
    requires s.mon + distance == bad || s.mon + distance == bad + |s.lines.rails|
    ensures !Passes(s, c, inputs).on
    decreases distance
  {
    if !s.on {
      OffStaysOff(s, c, inputs);
    } else {
      FirstPass(s, c, inputs, bad);
      hide Passes, StaysBad, InputsFit, Iteration, PowerInv, WellFormed;
      var t := Iteration(s, c, inputs[0]).s;
      if !t.on {
        OffStaysOff(t, c, inputs[1..]);
      } else {
        BadRailIsFound(t, c, inputs[1..], bad, distance - 1);
      }
    }
  }

  /** The first of some passes, and those after it. */
  lemma FirstPass(s: Sup, c: Config, inputs: seq<Inputs>, bad: nat)
    requires WellFormed(s, c) && PowerInv(s) && InputsFit(s, inputs) && inputs != [] && s.on
    requires StaysBad(s, c, inputs, bad) && bad < |s.lines.rails| && (c.critical[bad] || c.input[bad])
    ensures |inputs[0].ready| == |s.lines.resets|
    ensures var t := Iteration(s, c, inputs[0]).s;
            && WellFormed(t, c) && PowerInv(t) && |t.lines.rails| == |s.lines.rails|
            && InputsFit(t, inputs[1..]) && StaysBad(t, c, inputs[1..], bad)
            && Passes(s, c, inputs) == Passes(t, c, inputs[1..])
            && t.mon == (if s.mon + 1 == |s.lines.rails| then 0 else s.mon + 1) && (s.mon == bad ==> !t.on)
  {
    var x := inputs[0];
    assert x in inputs;
    PassParts(s, c, x);
    IterationKeeps(s, c, x);
    NextRail(s.mon, |s.lines.rails|);
    hide UpdateResets, Iteration, PowerInv;
  }

  lemma NextRail(mon: nat, n: nat)
    requires mon < n
    ensures (mon + 1) % n == if mon + 1 == n then 0 else mon + 1
  {
  }

  /** A critical or input rail that stays bad turns the power off within as many passes as there are rails. */
  lemma BadRailStopsPower(s: Sup, c: Config, inputs: seq<Inputs>, bad: nat)
    requires WellFormed(s, c) && PowerInv(s) && InputsFit(s, inputs) && bad < |s.lines.rails|
    requires StaysBad(s, c, inputs, bad) && (c.critical[bad] || c.input[bad])
    requires |inputs| >= |s.lines.rails|
    ensures !Passes(s, c, inputs).on
  {
    var distance := if s.mon <= bad then bad - s.mon else bad + |s.lines.rails| - s.mon;
    BadRailIsFound(s, c, inputs, bad, distance);
  }

  /** The rails that consecutive monitor calls look at, whatever these answer. */
  function RailsAsked(s: Sup, c: Config, answers: seq<bool>): seq<nat>
    requires WellFormed(s, c) && PowerInv(s)
    decreases |answers|
  {
    if answers == [] then [] else
      MonitorKeeps(s, c, answers[0]);
      [s.mon] + RailsAsked(MonitorRails(s, c, answers[0]).s, c, answers[1..])
  }

  lemma {:induction false} RailsAskedAt(s: Sup, c: Config, answers: seq<bool>)
    requires WellFormed(s, c) && PowerInv(s)
    ensures var asked := RailsAsked(s, c, answers);
            |asked| == |answers|
            && forall k | 0 <= k < |asked| :: asked[k] == MonitorAfter(s.mon, |s.lines.rails|, k)
    decreases |answers|
  {
    if answers != [] {
      var n := |s.lines.rails|;
      var t := MonitorRails(s, c, answers[0]).s;
      MonitorKeeps(s, c, answers[0]);
      RailsAskedAt(t, c, answers[1..]);
      var asked, rest := RailsAsked(s, c, answers), RailsAsked(t, c, answers[1..]);
      assert asked == [s.mon] + rest;
      hide MonitorRails, PowerInv, MonitorAfter, RailsAsked, WellFormed;
      forall k | 0 <= k < |answers| ensures asked[k] == MonitorAfter(s.mon, n, k) {
        MonitorShift(s.mon, n, k);
        if k > 0 { assert asked[k] == rest[k - 1]; }
      }
    }
  }

  /** `rail` occurs in the list exactly once. */
  predicate Once(asked: seq<nat>, rail: nat) {
    exists k | 0 <= k < |asked| :: OnlyAt(asked, rail, k)
  }

  predicate OnlyAt(asked: seq<nat>, rail: nat, k: nat) {
    forall j | 0 <= j < |asked| :: asked[j] == rail <==> j == k
  }

  /** Any `n` consecutive monitor calls look at each of the `n` rails exactly once. */
  lemma EachRailOnce(s: Sup, c: Config, answers: seq<bool>, rail: nat)
    requires WellFormed(s, c) && PowerInv(s) && |answers| == |s.lines.rails| && rail < |s.lines.rails|
    ensures Once(RailsAsked(s, c, answers), rail)
  {
    var n, mon, asked := |s.lines.rails|, s.mon, RailsAsked(s, c, answers);
    RailsAskedAt(s, c, answers);
    hide RailsAsked, PowerInv, MonitorAfter, OnlyAt;
    forall k | 0 <= k < n ensures asked[k] == if mon + k < n then mon + k else mon + k - n {
      MonitorAfterIs(mon, n, k);
    }
    RoundOnce(asked, mon, rail);
  }

  lemma RoundOnce(asked: seq<nat>, mon: nat, rail: nat)
    requires mon < |asked| && rail < |asked|
    requires forall k | 0 <= k < |asked| :: asked[k] == if mon + k < |asked| then mon + k else mon + k - |asked|
    ensures Once(asked, rail)
  {
    var k := if mon <= rail then rail - mon else rail + |asked| - mon;
    assert OnlyAt(asked, rail, k);
  }

  /** The monitor index after `k` calls. */
  function MonitorAfter(mon: nat, n: nat, k: nat): nat
    requires mon < n
  {
    if k == 0 then mon else (MonitorAfter(mon, n, k - 1) + 1) % n
  }

  lemma {:induction false} MonitorAfterIs(mon: nat, n: nat, k: nat)
    requires mon < n && k < n
    ensures MonitorAfter(mon, n, k) == if mon + k < n then mon + k else mon + k - n
    decreases k
  {
    if k > 0 {
      MonitorAfterIs(mon, n, k - 1);
      NextRail(MonitorAfter(mon, n, k - 1), n);
    }
  }

  lemma {:induction false} MonitorShift(mon: nat, n: nat, k: nat)
    requires mon < n
    ensures MonitorAfter(mon, n, k) == if k == 0 then mon else MonitorAfter((mon + 1) % n, n, k - 1)
    decreases k
  {
    if k > 1 { MonitorShift(mon, n, k - 1); }
  }
}
