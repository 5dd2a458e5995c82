/** What the power and reset supervisor does, as functions of its state and of the readings the
    hardware gave it, with every change of a line recorded as an event. */
module SupervisorSpec {

  datatype Event = RailOn(rail: nat) | RailOff(rail: nat) | Assert(line: nat) | Release(line: nat)

  /** rails[i]: rail i is enabled. resets[i]: reset line i is released. */
  datatype Lines = Lines(rails: seq<bool>, resets: seq<bool>)

  function Apply(l: Lines, e: Event): (m: Lines)
    ensures |m.rails| == |l.rails| && |m.resets| == |l.resets|
  {
    match e
    case RailOn(i) => if i < |l.rails| then l.(rails := l.rails[i := true]) else l
    case RailOff(i) => if i < |l.rails| then l.(rails := l.rails[i := false]) else l
    case Assert(i) => if i < |l.resets| then l.(resets := l.resets[i := false]) else l
    case Release(i) => if i < |l.resets| then l.(resets := l.resets[i := true]) else l
  }

  function Replay(l: Lines, trace: seq<Event>): (m: Lines)
    ensures |m.rails| == |l.rails| && |m.resets| == |l.resets|
  {
    if trace == [] then l else Apply(Replay(l, trace[..|trace| - 1]), trace[|trace| - 1])
  }

  lemma ReplayNone(l: Lines)
    ensures Replay(l, []) == l
  {
  }

  lemma ReplayOne(l: Lines, trace: seq<Event>, e: Event)
    ensures Replay(l, trace + [e]) == Apply(Replay(l, trace), e)
  {
    assert (trace + [e])[..|trace|] == trace;
  }

  lemma {:induction false} ReplayJoin(l: Lines, a: seq<Event>, b: seq<Event>)
    ensures Replay(l, a + b) == Replay(Replay(l, a), b)
    decreases |b|
  {
    if b == [] {
      assert a + b == a;
    } else {
      var c, e := b[..|b| - 1], b[|b| - 1];
      assert b == c + [e] && a + b == (a + c) + [e];
      ReplayOne(l, a + c, e);
      ReplayJoin(l, a, c);
      ReplayOne(Replay(l, a), c, e);
    }
  }

  // ---------------------------------------------------------------- the loops

  /** Rails 0 up to k-1 are turned on. */
  function RailsUp(k: nat): seq<Event> {
    if k == 0 then [] else RailsUp(k - 1) + [RailOn(k - 1)]
  }

  /** Rails n-1 down to i are turned off. */
  function RailsDown(n: nat, i: nat): seq<Event>
    decreases n - i
  {
    if i >= n then [] else RailsDown(n, i + 1) + [RailOff(i)]
  }

  /** Resets n-1 down to i are asserted. */
  function AssertDown(n: nat, i: nat): seq<Event>
    decreases n - i
  {
    if i >= n then [] else AssertDown(n, i + 1) + [Assert(i)]
  }

  /** Resets i up to n-1 are asserted. */
  function AssertUp(i: nat, n: nat): seq<Event> {
    if n <= i then [] else AssertUp(i, n - 1) + [Assert(n - 1)]
  }

  // ---------------------------------------------------------------- the operations

  datatype Sup = Sup(lines: Lines, on: bool, done: bool, idx: nat, mon: nat)

  /** critical[i], input[i]: what rail i is for. */
  datatype Config = Config(critical: seq<bool>, input: seq<bool>)

  /** A state and the events that led to it. */
  datatype Outcome = Outcome(s: Sup, trace: seq<Event>)

  function Off(s: Sup, trace: seq<Event>): Outcome {
    Outcome(Sup(Replay(s.lines, trace), false, false, 0, s.mon), trace)
  }

  function PanicShutdown(s: Sup): Outcome {
    Off(s, RailsDown(|s.lines.rails|, 0) + AssertUp(0, |s.lines.resets|))
  }

  /** `good` is the number of rails that came up: one short of all of them means failure. */
  function PowerOn(s: Sup, good: nat): Outcome
    requires good <= |s.lines.rails|
  {
    if good < |s.lines.rails| then
      var up := RailsUp(good + 1);
      var p := PanicShutdown(s.(lines := Replay(s.lines, up)));
      Outcome(p.s, up + p.trace)
    else
      var t := RailsUp(good) + if |s.lines.resets| > 0 then [Release(0)] else [];
      Outcome(Sup(Replay(s.lines, t), true, false, 0, s.mon), t)
  }

  function PowerOff(s: Sup): Outcome {
    Off(s, AssertDown(|s.lines.resets|, 0) + RailsDown(|s.lines.rails|, 0))
  }

  /** The first unready device before `n`, or `n`. */
  function FirstUnready(ready: seq<bool>, n: nat): (r: nat)
    requires n <= |ready|
    ensures r <= n && (forall i | 0 <= i < r :: ready[i]) && (r < n ==> !ready[r])
    decreases n
  {
    if n == 0 then 0 else
      var r := FirstUnready(ready, n - 1);
      if r < n - 1 || !ready[n - 1] then r else n
  }

  lemma UnreadyIs(ready: seq<bool>, n: nat, i: nat)
    requires i < n <= |ready| && !ready[i] && forall k | 0 <= k < i :: ready[k]
    ensures FirstUnready(ready, n) == i
  {
  }

  /** The line being waited for is ready: release the next one, or finish. */
  function Advance(s: Sup, first: bool): Outcome {
    var n := |s.lines.resets|;
    if s.done || !first then Outcome(s, [])
    else if s.idx + 1 >= n then Outcome(s.(idx := s.idx + 1, done := true), [])
    else Outcome(s.(idx := s.idx + 1, lines := Replay(s.lines, [Release(s.idx + 1)])), [Release(s.idx + 1)])
  }

  /** A device earlier in the sequence went down: back up to it and reset everything after it. */
  function Rollback(s: Sup, ready: seq<bool>): Outcome
    requires s.idx <= |ready|
  {
    var r := FirstUnready(ready, s.idx);
    if r == s.idx then Outcome(s, []) else
      var t := AssertUp(r + 1, |s.lines.resets|);
      Outcome(s.(idx := r, done := false, lines := Replay(s.lines, t)), t)
  }

  /** `first` is the reading that may advance the sequence, `ready` the readings of the second loop. */
  function UpdateResets(s: Sup, first: bool, ready: seq<bool>): Outcome
    requires |ready| == |s.lines.resets|
    requires s.idx < |ready| || (s.done && s.idx == |ready|)
  {
    var a := Advance(s, first);
    var r := Rollback(a.s, ready);
    Outcome(r.s, a.trace + r.trace)
  }

  // Which devices answer during one update, and with what.

  function AskedFirst(s: Sup, first: bool, k: nat): seq<bool> {
    if !s.done && k == s.idx then [first] else []
  }

  function AskedAgain(idx: nat, ready: seq<bool>, k: nat): seq<bool>
    requires idx <= |ready|
  {
    if k < idx && k <= FirstUnready(ready, idx) then [ready[k]] else []
  }

  function Asked(s: Sup, first: bool, ready: seq<bool>, k: nat): seq<bool>
    requires |ready| == |s.lines.resets|
    requires s.idx < |ready| || (s.done && s.idx == |ready|)
  {
    AskedFirst(s, first, k) + AskedAgain(Advance(s, first).s.idx, ready, k)
  }

  function MonitorRails(s: Sup, c: Config, good: bool): Outcome
    requires s.mon < |s.lines.rails| == |c.critical| == |c.input|
  {
    var o := if good then Outcome(s, [])
             else if c.critical[s.mon] then PanicShutdown(s)
             else if c.input[s.mon] then PowerOff(s)
             else Outcome(s, []);
    Outcome(o.s.(mon := (s.mon + 1) % |s.lines.rails|), o.trace)
  }

  /** The readings of one pass through the main loop. */
  datatype Inputs = Inputs(first: bool, ready: seq<bool>, good: bool)

  function Iteration(s: Sup, c: Config, x: Inputs): Outcome
    requires WellFormed(s, c) && |x.ready| == |s.lines.resets| && PowerInv(s)
  {
    if !s.on then Outcome(s, []) else
      var u := UpdateResets(s, x.first, x.ready);
      UpdateShape(s, x.first, x.ready);
      var m := MonitorRails(u.s, c, x.good);
      Outcome(m.s, u.trace + m.trace)
  }

  // ---------------------------------------------------------------- the invariant

  predicate WellFormed(s: Sup, c: Config) {
    |s.lines.rails| == |c.critical| == |c.input| && s.mon < |s.lines.rails| && |s.lines.resets| > 0
  }

  predicate AllRails(l: Lines, on: bool) { forall i | 0 <= i < |l.rails| :: l.rails[i] == on }

  /** Exactly the first `k` reset lines are released. */
  predicate ReleasedUpTo(l: Lines, k: nat) { forall i | 0 <= i < |l.resets| :: l.resets[i] == (i < k) }

  /** What holds whatever was called before. Off: every rail off, every reset asserted. On: every rail
      on, lines 0..min(idx, n-1) released, and the sequence is done exactly when idx has passed the last
      line. */
  predicate PowerInv(s: Sup) {
    if s.on then
      && AllRails(s.lines, true) && s.idx <= |s.lines.resets|
      && (forall i | 0 <= i < |s.lines.resets| && i <= s.idx :: s.lines.resets[i])
      && (s.done <==> s.idx == |s.lines.resets|)
    else
      AllRails(s.lines, false) && ReleasedUpTo(s.lines, 0) && s.idx == 0 && !s.done
  }

  /** The resets are in order: besides, the lines after min(idx, n-1) are asserted. */
  predicate SequenceInv(s: Sup) {
    PowerInv(s) && (s.on ==> ReleasedUpTo(s.lines, s.idx + 1))
  }

  lemma UpdateShape(s: Sup, first: bool, ready: seq<bool>)
    requires |ready| == |s.lines.resets|
    requires s.idx < |s.lines.resets| || (s.done && s.idx == |s.lines.resets|)
    ensures var o := UpdateResets(s, first, ready);
            o.s.mon == s.mon && o.s.on == s.on && |o.s.lines.rails| == |s.lines.rails|
            && |o.s.lines.resets| == |s.lines.resets|
  {
  }

  // What each loop leaves behind.

  lemma {:induction false} AfterRailsUp(l: Lines, k: nat)
    requires k <= |l.rails|
    ensures var m := Replay(l, RailsUp(k));
            m.resets == l.resets && forall i | 0 <= i < |l.rails| :: m.rails[i] == (i < k || l.rails[i])
    decreases k
  {
    if k > 0 {
      AfterRailsUp(l, k - 1);
      ReplayOne(l, RailsUp(k - 1), RailOn(k - 1));
    }
  }

  lemma {:induction false} AfterRailsDown(l: Lines, i: nat)
    requires i <= |l.rails|
    ensures var m := Replay(l, RailsDown(|l.rails|, i));
            m.resets == l.resets && forall k | 0 <= k < |l.rails| :: m.rails[k] == (k < i && l.rails[k])
    decreases |l.rails| - i
  {
    if i < |l.rails| {
      AfterRailsDown(l, i + 1);
      ReplayOne(l, RailsDown(|l.rails|, i + 1), RailOff(i));
    }
  }

  lemma {:induction false} AfterAssertDown(l: Lines, i: nat)
    requires i <= |l.resets|
    ensures var m := Replay(l, AssertDown(|l.resets|, i));
            m.rails == l.rails && forall k | 0 <= k < |l.resets| :: m.resets[k] == (k < i && l.resets[k])
    decreases |l.resets| - i
  {
    if i < |l.resets| {
      AfterAssertDown(l, i + 1);
      ReplayOne(l, AssertDown(|l.resets|, i + 1), Assert(i));
    }
  }

  lemma {:induction false} AfterAssertUp(l: Lines, i: nat, n: nat)
    requires n <= |l.resets|
    ensures var m := Replay(l, AssertUp(i, n));
            m.rails == l.rails && forall k | 0 <= k < |l.resets| :: m.resets[k] == (!(i <= k < n) && l.resets[k])
    decreases n
  {
    if n > i {
      AfterAssertUp(l, i, n - 1);
      ReplayOne(l, AssertUp(i, n - 1), Assert(n - 1));
    }
  }

  /** A panic turns everything off, whatever state it finds. */
  lemma PanicIsOff(s: Sup)
    ensures SequenceInv(PanicShutdown(s).s) && !PanicShutdown(s).s.on
  {
    var down, up := RailsDown(|s.lines.rails|, 0), AssertUp(0, |s.lines.resets|);
    ReplayJoin(s.lines, down, up);
    AfterRailsDown(s.lines, 0);
    AfterAssertUp(Replay(s.lines, down), 0, |s.lines.resets|);
  }

  lemma PowerOffIsOff(s: Sup)
    ensures SequenceInv(PowerOff(s).s) && !PowerOff(s).s.on
  {
    var asserts, down := AssertDown(|s.lines.resets|, 0), RailsDown(|s.lines.rails|, 0);
    ReplayJoin(s.lines, asserts, down);
    AfterAssertDown(s.lines, 0);
    AfterRailsDown(Replay(s.lines, asserts), 0);
  }

  /** Turning on: every rail on and line 0 released, or everything off again. */
  lemma PowerOnResult(s: Sup, good: nat)
    requires good <= |s.lines.rails|
    ensures PowerOn(s, good).s.mon == s.mon
    ensures var t := PowerOn(s, good).s;
            if good < |s.lines.rails| then SequenceInv(t) && !t.on
            else t.on && AllRails(t.lines, true) && t.idx == 0 && !t.done
                 && forall i | 0 <= i < |s.lines.resets| :: t.lines.resets[i] == (i == 0 || s.lines.resets[i])
  {
    var n := |s.lines.rails|;
    if good < n {
      PanicIsOff(s.(lines := Replay(s.lines, RailsUp(good + 1))));
    } else {
      AfterRailsUp(s.lines, good);
      if |s.lines.resets| > 0 {
        ReplayOne(s.lines, RailsUp(good), Release(0));
      } else {
        assert RailsUp(good) + [] == RailsUp(good);
      }
    }
  }

  /** Once the rails are up, the resets are in order exactly if no line after the first was released
      before the call: while the power is on, if the sequence is still at its first line or has no
      other. */
  lemma PowerOnOrder(s: Sup)
    requires |s.lines.resets| > 0
    ensures SequenceInv(PowerOn(s, |s.lines.rails|).s) <==> forall i | 0 < i < |s.lines.resets| :: !s.lines.resets[i]
    ensures SequenceInv(s) && s.on ==>
              (SequenceInv(PowerOn(s, |s.lines.rails|).s) <==> s.idx == 0 || |s.lines.resets| == 1)
  {
    var t := PowerOn(s, |s.lines.rails|).s;
    PowerOnResult(s, |s.lines.rails|);
    if SequenceInv(s) && s.on && s.idx > 0 && |s.lines.resets| > 1 {
      assert s.lines.resets[1] && t.lines.resets[1];
    }
  }

  /** Two lines, both released: after a second PowerOn the later one is still released. */
  lemma PowerOnCanReorder()
    ensures var s := Sup(Lines([true], [true, true]), true, false, 1, 0);
            SequenceInv(s) && !SequenceInv(PowerOn(s, 1).s)
  {
    PowerOnOrder(Sup(Lines([true], [true, true]), true, false, 1, 0));
  }

  /** Whatever state it is called in, PowerOn leaves the power properly on or properly off. */
  lemma PowerOnKeeps(s: Sup, good: nat)
    requires good <= |s.lines.rails| && |s.lines.resets| > 0
    ensures PowerInv(PowerOn(s, good).s)
  {
    PowerOnResult(s, good);
  }

  lemma PowerOnWhileOff(s: Sup, good: nat)
    requires SequenceInv(s) && !s.on && good <= |s.lines.rails| && |s.lines.resets| > 0
    ensures SequenceInv(PowerOn(s, good).s)
  {
    PowerOnResult(s, good);
  }

  lemma AdvanceKeeps(s: Sup, first: bool)
    requires PowerInv(s) && s.on
    ensures var t := Advance(s, first).s;
            && PowerInv(t) && (SequenceInv(s) ==> SequenceInv(t)) && t.on
            && t.idx == if first && !s.done then s.idx + 1 else s.idx
  {
    if first && !s.done && s.idx + 1 < |s.lines.resets| {
      assert [Release(s.idx + 1)] == [] + [Release(s.idx + 1)];
      ReplayOne(s.lines, [], Release(s.idx + 1));
    }
  }

  lemma RollbackKeeps(s: Sup, ready: seq<bool>)
    requires PowerInv(s) && s.on && |ready| == |s.lines.resets|
    ensures var t := Rollback(s, ready).s;
            && PowerInv(t) && (SequenceInv(s) ==> SequenceInv(t)) && t.on && t.idx <= s.idx
            && (forall i | 0 <= i < t.idx :: ready[i])
            && (t.idx < s.idx ==> !ready[t.idx])
  {
    var r := FirstUnready(ready, s.idx);
    if r < s.idx {
      AfterAssertUp(s.lines, r + 1, |s.lines.resets|);
    }
  }

  /** One pass keeps the order; every device below the index was seen ready in that pass; and a
      rollback goes to the least device that was not. */
  lemma UpdateKeeps(s: Sup, first: bool, ready: seq<bool>)
    requires PowerInv(s) && s.on && |ready| == |s.lines.resets| > 0
    ensures var t := UpdateResets(s, first, ready).s;
            && PowerInv(t) && (SequenceInv(s) ==> SequenceInv(t)) && t.on
            && (forall i | 0 <= i < t.idx :: ready[i])
            && (t.idx < s.idx ==> !ready[t.idx])
            && (t.idx > s.idx ==> t.idx == s.idx + 1 && first && !s.done)
            && (t.idx == s.idx && first && !s.done ==> !ready[t.idx])
  {
    hide SequenceInv;
    AdvanceKeeps(s, first);
    RollbackKeeps(Advance(s, first).s, ready);
  }

  lemma MonitorKeeps(s: Sup, c: Config, good: bool)
    requires PowerInv(s) && WellFormed(s, c)
    ensures var t := MonitorRails(s, c, good).s;
            && PowerInv(t) && (SequenceInv(s) ==> SequenceInv(t)) && WellFormed(t, c)
            && (t.on <==> s.on && (good || !(c.critical[s.mon] || c.input[s.mon])))
            && (good || !(c.critical[s.mon] || c.input[s.mon]) ==> t == s.(mon := t.mon))
            && t.mon == (s.mon + 1) % |s.lines.rails|
  {
    if !good {
      if c.critical[s.mon] { PanicIsOff(s); }
      else if c.input[s.mon] { PowerOffIsOff(s); }
    }
  }

  lemma IterationKeeps(s: Sup, c: Config, x: Inputs)
    requires WellFormed(s, c) && |x.ready| == |s.lines.resets| && PowerInv(s)
    ensures var t := Iteration(s, c, x).s;
            && PowerInv(t) && (SequenceInv(s) ==> SequenceInv(t)) && WellFormed(t, c)
            && |t.lines.resets| == |s.lines.resets|
            && |t.lines.rails| == |s.lines.rails|
  {
    if s.on {
      UpdateKeeps(s, x.first, x.ready);
      MonitorKeeps(UpdateResets(s, x.first, x.ready).s, c, x.good);
    }
  }
}
