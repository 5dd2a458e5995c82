/** The supervisor itself: loops over rail and reset objects, proved to do what SupervisorSpec says
    for whatever readings the hardware returned. */
module PowerResetSupervisor {
  import opened SupervisorDescriptors
  import opened S = SupervisorSpec

  class Supervisor {
    const rails: seq<RailDescriptor>
    const resets: seq<ResetDescriptor>
    const timer: Timer
    var powerOn: bool
    var resetsDone: bool
    var resetSequenceIndex: nat
    var monitorRailIndex: nat
    /** The state of every line, and every change made to one so far. */
    ghost var lines: Lines
    ghost var trace: seq<Event>

    ghost predicate Distinct() {
      && (forall i, j | 0 <= i < j < |rails| :: rails[i] != rails[j])
      && (forall i, j | 0 <= i < j < |resets| :: resets[i] != resets[j])
    }

    /** The objects agree with the recorded lines. */
    ghost predicate Linked()
      reads this`lines, timer, rails, resets
    {
      && Distinct() && timer.Valid()
      && |lines.rails| == |rails| && |lines.resets| == |resets|
      && (forall i | 0 <= i < |rails| :: rails[i].timer == timer && rails[i].Enabled() == lines.rails[i])
      && (forall i | 0 <= i < |resets| ::
            resets[i].timer == timer && resets[i].Valid() && resets[i].Released() == lines.resets[i])
    }

    ghost function Abs(): Sup
      reads this
    {
      Sup(lines, powerOn, resetsDone, resetSequenceIndex, monitorRailIndex)
    }

    ghost function Cfg(): (c: Config)
      ensures |c.critical| == |c.input| == |rails|
      ensures forall i | 0 <= i < |rails| :: c.critical[i] == rails[i].critical && c.input[i] == rails[i].inputSupply
    {
      Config(seq(|rails|, i requires 0 <= i < |rails| => rails[i].critical),
             seq(|rails|, i requires 0 <= i < |rails| => rails[i].inputSupply))
    }

    /** While the power is on, a delay line was released more than its delay before the next line
        (or its sum wrapped). */
    ghost predicate Paced()
      reads this`powerOn, this`resetSequenceIndex, resets
    {
      powerOn ==> forall i | 0 <= i < resetSequenceIndex && i + 1 < |resets| ::
        resets[i].Elapsed(resets[i + 1].releasedAt)
    }

    ghost predicate Valid()
      reads this, timer, rails, resets
    {
      Linked() && WellFormed(Abs(), Cfg()) && PowerInv(Abs()) && Paced()
    }

    /** No reset line after the one being waited for is released. */
    ghost predicate InOrder()
      reads this
    {
      SequenceInv(Abs())
    }

    constructor (rails: seq<RailDescriptor>, resets: seq<ResetDescriptor>, timer: Timer)
      requires |rails| > 0 && |resets| > 0 && timer.Valid()
      requires forall i, j | 0 <= i < j < |rails| :: rails[i] != rails[j]
      requires forall i, j | 0 <= i < j < |resets| :: resets[i] != resets[j]
      requires forall r <- rails :: r.timer == timer && !r.Enabled()
      requires forall r <- resets :: r.timer == timer && r.Valid() && !r.Released()
      ensures Valid() && InOrder() && !powerOn && trace == []
    {
      this.rails, this.resets, this.timer := rails, resets, timer;
      powerOn, resetsDone, resetSequenceIndex, monitorRailIndex := false, false, 0, 0;
      lines := Lines(seq(|rails|, _ => false), seq(|resets|, _ => false));
      trace := [];
      new;
      forall i | 0 <= i < |resets| ensures resets[i].timer == timer && resets[i].Valid() && !resets[i].Released() {
        assert resets[i] in resets;
      }
      forall i | 0 <= i < |rails| ensures rails[i].timer == timer && !rails[i].Enabled() {
        assert rails[i] in rails;
      }
    }

    /** No device was asked anything, and no rail was turned on. */
    twostate predicate NothingAsked()
      reads rails, resets
    {
      && (forall r <- resets :: r.answers == old(r.answers))
      && (forall r <- rails :: r.answers == old(r.answers) && r.cameUp == old(r.cameUp))
    }

    lemma Separate()
      requires Linked()
      ensures Distinct() && |lines.rails| == |rails| && |lines.resets| == |resets|
    {
    }

    lemma InBounds()
      requires Valid()
      ensures Distinct() && |lines.rails| == |rails| && |lines.resets| == |resets|
      ensures powerOn ==> resetSequenceIndex <= |resets|
    {
    }

    /** While the power is on, each delay line before the one being waited for was released for more than its
        delay when the next line was, unless the 32-bit sum wrapped. */
    lemma DelaysKept(i: nat)
      requires Valid() && powerOn && i < resetSequenceIndex && i + 1 < |resets| && resets[i].kind.AfterDelay?
      ensures var start, delay := resets[i].releasedAt, resets[i].kind.ticks;
              resets[i + 1].releasedAt > start + delay || start % 0x1_0000_0000 + delay >= 0x1_0000_0000
    {
      hide Linked, PowerInv;
      assert resets[i].Elapsed(resets[i + 1].releasedAt);
    }

    // -------------------------------------------------------------- one line at a time

    method SwitchRailOff(i: nat)
      requires Linked() && i < |rails|
      modifies this`lines, this`trace, rails[i]
      ensures Linked() && rails[i].answers == old(rails[i].answers) && rails[i].cameUp == old(rails[i].cameUp)
      ensures lines == Apply(old(lines), RailOff(i)) && trace == old(trace) + [RailOff(i)]
    {
      rails[i].TurnOff();
      lines, trace := Apply(lines, RailOff(i)), trace + [RailOff(i)];
    }

    method SwitchRailOn(i: nat) returns (ok: bool)
      requires Linked() && i < |rails|
      modifies this`lines, this`trace, rails[i], timer
      ensures Linked() && rails[i].cameUp == ok
      ensures lines == Apply(old(lines), RailOn(i)) && trace == old(trace) + [RailOn(i)]
    {
      ok := rails[i].TurnOn();
      lines, trace := Apply(lines, RailOn(i)), trace + [RailOn(i)];
    }

    method AssertLine(i: nat)
      requires Linked() && i < |resets|
      modifies this`lines, this`trace, resets[i]
      ensures Linked() && resets[i].releasedAt == old(resets[i].releasedAt)
      ensures resets[i].answers == old(resets[i].answers)
      ensures lines == Apply(old(lines), Event.Assert(i)) && trace == old(trace) + [Event.Assert(i)]
    {
      resets[i].Assert();
      lines, trace := Apply(lines, Event.Assert(i)), trace + [Event.Assert(i)];
    }

    method ReleaseLine(i: nat)
      requires Linked() && i < |resets|
      modifies this`lines, this`trace, resets[i], timer
      ensures Linked()
      ensures lines == Apply(old(lines), Release(i)) && trace == old(trace) + [Release(i)]
      ensures resets[i].releasedAt >= old(timer.ticks) && resets[i].answers == old(resets[i].answers)
    {
      resets[i].Deassert();
      lines, trace := Apply(lines, Release(i)), trace + [Release(i)];
    }

    method ReadRail(i: nat) returns (good: bool)
      requires Linked() && i < |rails|
      modifies rails[i]
      ensures Linked() && rails[i].answers == old(rails[i].answers) + [good]
    {
      good := rails[i].IsPowerGood();
    }

    method ReadLine(i: nat) returns (ready: bool)
      requires Linked() && i < |resets|
      modifies resets[i], timer
      ensures Linked() && resets[i].releasedAt == old(resets[i].releasedAt)
      ensures resets[i].answers == old(resets[i].answers) + [ready]
      ensures ready ==> resets[i].Elapsed(timer.ticks)
    {
      ready := resets[i].IsReady();
    }

    // -------------------------------------------------------------- loops

    method TurnOffRails(pause: nat)
      requires Linked()
      modifies this`lines, this`trace, rails, timer
      ensures Linked() && NothingAsked() && timer.ticks >= old(timer.ticks) + pause * |rails|
      ensures lines == Replay(old(lines), RailsDown(|rails|, 0)) && trace == old(trace) + RailsDown(|rails|, 0)
    {
      hide Linked, Replay;
      var i := |rails|;
      assert lines == Replay(lines, []) by { ReplayNone(lines); }
      while i > 0
        invariant 0 <= i <= |rails| && Linked() && NothingAsked()
        invariant timer.ticks >= old(timer.ticks) + pause * (|rails| - i)
        invariant lines == Replay(old(lines), RailsDown(|rails|, i)) && trace == old(trace) + RailsDown(|rails|, i)
      {
        i := i - 1;
        SwitchRailOff(i);
        ReplayOne(old(lines), RailsDown(|rails|, i + 1), RailOff(i));
        Pause(pause);
      }
    }

    method Pause(ticks: nat)
      requires Linked()
      modifies timer
      ensures Linked() && timer.ticks >= old(timer.ticks) + ticks
    {
      timer.Sleep(ticks);
    }

    method AssertResetsDown()
      requires Linked()
      modifies this`lines, this`trace, resets
      ensures Linked() && NothingAsked()
      ensures lines == Replay(old(lines), AssertDown(|resets|, 0)) && trace == old(trace) + AssertDown(|resets|, 0)
    {
      hide Linked, Replay;
      var i := |resets|;
      assert lines == Replay(lines, []) by { ReplayNone(lines); }
      while i > 0
        invariant 0 <= i <= |resets| && Linked() && NothingAsked()
        invariant lines == Replay(old(lines), AssertDown(|resets|, i)) && trace == old(trace) + AssertDown(|resets|, i)
      {
        i := i - 1;
        AssertLine(i);
        ReplayOne(old(lines), AssertDown(|resets|, i + 1), Event.Assert(i));
      }
    }

    method AssertResetsFrom(first: nat)
      requires Linked() && first <= |resets|
      modifies this`lines, this`trace, resets
      ensures Linked() && NothingAsked() && forall r <- resets :: r.releasedAt == old(r.releasedAt)
      ensures lines == Replay(old(lines), AssertUp(first, |resets|)) && trace == old(trace) + AssertUp(first, |resets|)
    {
      hide Linked, Replay;
      assert lines == Replay(lines, []) by { ReplayNone(lines); }
      for j := first to |resets|
        invariant Linked() && NothingAsked() && forall r <- resets :: r.releasedAt == old(r.releasedAt)
        invariant lines == Replay(old(lines), AssertUp(first, j)) && trace == old(trace) + AssertUp(first, j)
      {
        AssertLine(j);
        ReplayOne(old(lines), AssertUp(first, j), Event.Assert(j));
      }
    }

    // -------------------------------------------------------------- power calls

    method PanicShutdown()
      requires Linked()
      modifies this, rails, resets, timer
      ensures NothingAsked()
      ensures Linked() && Paced() && monitorRailIndex == old(monitorRailIndex)
      ensures Abs() == S.PanicShutdown(old(Abs())).s
      ensures trace == old(trace) + S.PanicShutdown(old(Abs())).trace
      ensures old(WellFormed(Abs(), Cfg())) ==> Valid() && InOrder()
    {
      hide Linked, Replay, RailsDown, AssertUp;
      Separate();
      TurnOffRails(0);
      AssertResetsFrom(0);
      ReplayJoin(old(lines), RailsDown(|rails|, 0), AssertUp(0, |resets|));
      powerOn := false;
      resetsDone := false;
      resetSequenceIndex := 0;
      PanicIsOff(old(Abs()));
      Separate();
    }

    method PowerOff()
      requires Linked()
      modifies this, rails, resets, timer
      ensures NothingAsked() && timer.ticks >= old(timer.ticks) + 10 * |rails|
      ensures Linked() && Paced() && monitorRailIndex == old(monitorRailIndex)
      ensures Abs() == S.PowerOff(old(Abs())).s
      ensures trace == old(trace) + S.PowerOff(old(Abs())).trace
      ensures old(WellFormed(Abs(), Cfg())) ==> Valid() && InOrder()
    {
      hide Linked, Replay, RailsDown, AssertDown;
      Separate();
      powerOn := false;
      resetsDone := false;
      resetSequenceIndex := 0;
      AssertResetsDown();
      TurnOffRails(10);
      ReplayJoin(old(lines), AssertDown(|resets|, 0), RailsDown(|rails|, 0));
      PowerOffIsOff(old(Abs()));
      Separate();
    }

    /** Turns the rails on in order; `good` of them came up. */
    method TurnOnRails() returns (good: nat)
      requires Linked()
      modifies this`lines, this`trace, rails, timer
      ensures Linked() && good <= |rails|
      ensures (forall i | 0 <= i < good :: rails[i].cameUp) && (good < |rails| ==> !rails[good].cameUp)
      ensures var up := RailsUp(if good < |rails| then good + 1 else good);
              lines == Replay(old(lines), up) && trace == old(trace) + up
    {
      hide Linked, Replay;
      Separate();
      good := 0;
      assert lines == Replay(lines, []) by { ReplayNone(lines); }
      while good < |rails|
        invariant Linked() && good <= |rails| && forall i | 0 <= i < good :: rails[i].cameUp
        invariant lines == Replay(old(lines), RailsUp(good)) && trace == old(trace) + RailsUp(good)
      {
        var ok := SwitchRailOn(good);
        ReplayOne(old(lines), RailsUp(good), RailOn(good));
        if !ok { return; }
        good := good + 1;
      }
    }

    /** May be called at any time. Called while the power is off, it leaves the resets in order; otherwise,
        see PowerOnOrder. */
    method PowerOn() returns (ghost good: nat)
      requires Valid()
      modifies this, rails, resets, timer
      ensures Valid() && good <= |rails| == |old(lines).rails|
      ensures Abs() == S.PowerOn(old(Abs()), good).s
      ensures trace == old(trace) + S.PowerOn(old(Abs()), good).trace
      ensures old(InOrder() && !powerOn) ==> InOrder()
      ensures (forall i | 0 <= i < good :: rails[i].cameUp) && (good < |rails| ==> !rails[good].cameUp)
    {
      hide Linked, Replay, RailsUp, S.PanicShutdown, PowerInv;
      Separate();
      var n := TurnOnRails();
      good := n;
      PowerOnKeeps(old(Abs()), good);
      if old(InOrder() && !powerOn) { PowerOnWhileOff(old(Abs()), good); }
      if n < |rails| {
        PanicShutdown();
        Separate();
        return;
      }
      powerOn := true;
      resetsDone := false;
      resetSequenceIndex := 0;
      if |resets| > 0 {
        ReleaseLine(0);
        ReplayOne(old(lines), RailsUp(n), Release(0));
      }
      assert RailsUp(n) + [] == RailsUp(n);
    }

    // -------------------------------------------------------------- main loop

    /** Advances the sequence when the line being waited for reads ready. */
    method AdvanceResets() returns (ghost first: bool)
      requires Valid() && powerOn
      modifies this`resetsDone, this`resetSequenceIndex, this`lines, this`trace, resets, timer
      ensures Valid() && powerOn
      ensures Abs() == Advance(old(Abs()), first).s && trace == old(trace) + Advance(old(Abs()), first).trace
      ensures forall k | 0 <= k < |resets| ::
                resets[k].answers == old(resets[k].answers) + AskedFirst(old(Abs()), first, k)
    {
      first := false;
      if resetsDone { return; }
      var ready := ReadLine(resetSequenceIndex);
      first := ready;
      if ready {
        NextLine();
      }
    }

    /** The line being waited for is ready: release the next one, or finish. */
    method NextLine()
      requires Valid() && powerOn && !resetsDone && resets[resetSequenceIndex].Elapsed(timer.ticks)
      modifies this`resetsDone, this`resetSequenceIndex, this`lines, this`trace, resets, timer
      ensures Valid() && powerOn
      ensures Abs() == Advance(old(Abs()), true).s && trace == old(trace) + Advance(old(Abs()), true).trace
      ensures forall r <- resets :: r.answers == old(r.answers)
    {
      hide Linked, PowerInv;
      InBounds();
      AdvanceKeeps(Abs(), true);
      resetSequenceIndex := resetSequenceIndex + 1;
      if resetSequenceIndex >= |resets| {
        resetsDone := true;
      } else {
        ReleaseLine(resetSequenceIndex);
        assert [Release(resetSequenceIndex)] == [] + [Release(resetSequenceIndex)];
        ReplayOne(old(lines), [], Release(resetSequenceIndex));
      }
    }

    /** Backs up to the first device of the sequence so far that no longer reads ready. The readings
        are what the devices answered; those not asked count as ready. */
    method CheckEarlier() returns (ghost ready: seq<bool>)
      requires Valid() && powerOn
      modifies this`resetsDone, this`resetSequenceIndex, this`lines, this`trace, resets, timer
      ensures Valid() && powerOn && |ready| == |resets|
      ensures Abs() == Rollback(old(Abs()), ready).s && trace == old(trace) + Rollback(old(Abs()), ready).trace
      ensures forall k | 0 <= k < |resets| ::
                resets[k].answers == old(resets[k].answers) + AskedAgain(old(resetSequenceIndex), ready, k)
    {
      hide Linked, Paced, PowerInv, AssertUp;
      InBounds();
      ready := seq(|resets|, _ => true);
      for i := 0 to resetSequenceIndex
        invariant Valid() && powerOn && Abs() == old(Abs()) && trace == old(trace)
        invariant ready == seq(|resets|, _ => true)
        invariant forall k | 0 <= k < |resets| ::
                    resets[k].answers == old(resets[k].answers) + if k < i then [true] else []
      {
        var r := AskAgain(i);
        if !r {
          ready := ready[i := false];
          UnreadyIs(ready, resetSequenceIndex, i);
          BackUpTo(i, ready);
          return;
        }
      }
    }

    /** Asking a device changes neither the lines nor the sequence. */
    method AskAgain(i: nat) returns (ready: bool)
      requires Valid() && powerOn && i < |resets|
      modifies resets[i], timer
      ensures Valid() && powerOn && Abs() == old(Abs()) && trace == old(trace)
      ensures resets[i].answers == old(resets[i].answers) + [ready]
    {
      hide Linked, PowerInv;
      Separate();
      ready := ReadLine(i);
    }

    method BackUpTo(i: nat, ghost ready: seq<bool>)
      requires Valid() && powerOn && i < resetSequenceIndex
      requires |ready| == |resets| && FirstUnready(ready, resetSequenceIndex) == i
      modifies this`resetsDone, this`resetSequenceIndex, this`lines, this`trace, resets
      ensures Valid() && powerOn
      ensures Abs() == Rollback(old(Abs()), ready).s && trace == old(trace) + Rollback(old(Abs()), ready).trace
      ensures NothingAsked()
    {
      hide Linked, PowerInv, Replay;
      Separate();
      RollbackKeeps(Abs(), ready);
      resetSequenceIndex := i;
      resetsDone := false;
      AssertResetsFrom(i + 1);
      Separate();
    }

    method UpdateResets() returns (ghost first: bool, ghost ready: seq<bool>)
      requires Valid() && powerOn
      modifies this`resetsDone, this`resetSequenceIndex, this`lines, this`trace, resets, timer
      ensures Valid() && powerOn && |ready| == |resets|
      ensures Abs() == S.UpdateResets(old(Abs()), first, ready).s
      ensures trace == old(trace) + S.UpdateResets(old(Abs()), first, ready).trace
      ensures forall k | 0 <= k < |resets| ::
                resets[k].answers == old(resets[k].answers) + Asked(old(Abs()), first, ready, k)
    {
      hide Linked, Paced, Advance, Rollback;
      Separate();
      first := AdvanceResets();
      ready := CheckEarlier();
    }

    /** One rail is checked per call, and what it answers decides. */
    method MonitorRails() returns (ghost good: bool)
      requires Valid()
      modifies this, rails, resets, timer
      ensures Valid()
      ensures !good && !rails[old(monitorRailIndex)].critical && rails[old(monitorRailIndex)].inputSupply ==>
                timer.ticks >= old(timer.ticks) + 10 * |rails|
      ensures Abs() == S.MonitorRails(old(Abs()), Cfg(), good).s
      ensures trace == old(trace) + S.MonitorRails(old(Abs()), Cfg(), good).trace
      ensures forall k | 0 <= k < |rails| ::
                rails[k].answers == old(rails[k].answers) + if k == old(monitorRailIndex) then [good] else []
      ensures forall r <- resets :: r.answers == old(r.answers)
    {
      hide Linked, Paced, S.PanicShutdown, S.PowerOff, PowerInv, SequenceInv, Cfg, Replay;
      Separate();
      var rail := rails[monitorRailIndex];
      var ok := ReadRail(monitorRailIndex);
      good := ok;
      MonitorKeeps(Abs(), Cfg(), good);
      if !ok {
        if rail.critical {
          PanicShutdown();
        } else if rail.inputSupply {
          PowerOff();
        }
      }
      monitorRailIndex := (monitorRailIndex + 1) % |rails|;
    }

    /** One pass through the main loop. */
    method Iteration() returns (ghost x: Inputs)
      requires Valid()
      modifies this, rails, resets, timer
      ensures old(InOrder()) ==> InOrder()
      ensures Valid() && |x.ready| == |resets| == |old(lines).resets|
      ensures Abs() == S.Iteration(old(Abs()), Cfg(), x).s
      ensures trace == old(trace) + S.Iteration(old(Abs()), Cfg(), x).trace
      ensures forall k | 0 <= k < |resets| :: resets[k].answers == old(resets[k].answers)
                + if old(powerOn) then Asked(old(Abs()), x.first, x.ready, k) else []
      ensures forall k | 0 <= k < |rails| :: rails[k].answers == old(rails[k].answers)
                + if old(powerOn) && k == old(monitorRailIndex) then [x.good] else []
    {
      hide Linked, Paced, S.UpdateResets, S.MonitorRails, PowerInv;
      Separate();
      ghost var s := Abs();
      x := Inputs(true, seq(|resets|, _ => true), true);
      if powerOn {
        ghost var first, ready := UpdateResets();
        ghost var good := MonitorRails();
        x := Inputs(first, ready, good);
        IterationKeeps(s, Cfg(), x);
      }
    }
  }
}
