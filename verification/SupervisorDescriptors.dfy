/** The supervisor's rails, reset lines and timer: pins driven in place, and devices and a clock that
    answer as they please. */
module SupervisorDescriptors {

  const WRAP := 0x1_0000_0000

  /** A 32-bit tick counter. `ticks` is the time it stands for. */
  class Timer {
    ghost var ticks: nat
    var count: nat

    ghost predicate Valid() reads this { count == ticks % WRAP }

    constructor ()
      ensures Valid()
    {
      ticks, count := 0, 0;
    }

    /** Any amount of time may have passed since the last call. */
    method GetCount() returns (now: nat)
      requires Valid()
      modifies this
      ensures Valid() && now == count && ticks >= old(ticks)
    {
      var passed: nat :| passed >= 0;
      Elapse(ticks, count, passed);
      ticks := ticks + passed;
      count := (count + passed) % WRAP;
      now := count;
    }

    method Sleep(delay: nat)
      requires Valid()
      modifies this
      ensures Valid() && ticks >= old(ticks) + delay
    {
      var extra: nat :| extra >= 0;
      Elapse(ticks, count, delay + extra);
      ticks := ticks + delay + extra;
      count := (count + delay + extra) % WRAP;
    }
  }

  lemma Elapse(ticks: nat, count: nat, passed: nat)
    requires count == ticks % WRAP
    ensures (count + passed) % WRAP == (ticks + passed) % WRAP
  {
  }

  // ---------------------------------------------------------------- rails

  /** A rail with an enable pin of either polarity; `feedback` says whether there is a power-good
      signal (a pin, or a voltage measurement within limits). */
  class RailDescriptor {
    const activeLow: bool
    const feedback: bool
    const delay: nat
    const critical: bool
    const inputSupply: bool
    const timer: Timer
    var pin: bool
    /** Every answer of the power-good test so far, and whether the last attempt to turn on succeeded. */
    ghost var answers: seq<bool>
    ghost var cameUp: bool

    predicate Enabled() reads this { pin != activeLow }

    constructor (activeLow: bool, feedback: bool, delay: nat, critical: bool, inputSupply: bool, timer: Timer)
      ensures !Enabled() && this.timer == timer
      ensures this.activeLow == activeLow && this.feedback == feedback && this.delay == delay
      ensures this.critical == critical && this.inputSupply == inputSupply
    {
      this.activeLow, this.feedback, this.delay := activeLow, feedback, delay;
      this.critical, this.inputSupply, this.timer := critical, inputSupply, timer;
      pin := activeLow;
      answers, cameUp := [], false;
    }

    method IsPowerGood() returns (good: bool)
      modifies this`answers
      ensures !feedback ==> good
      ensures answers == old(answers) + [good]
    {
      good := *;
      if !feedback { good := true; }
      answers := answers + [good];
    }

    /** Enables the rail and waits for it: true exactly when one of at most `delay`+1 readings, a tick
        apart, was good. */
    method TurnOn() returns (ok: bool)
      requires timer.Valid()
      modifies this`pin, this`answers, this`cameUp, timer
      ensures timer.Valid() && timer.ticks >= old(timer.ticks)
      ensures Enabled() && pin == !activeLow && cameUp == ok
      ensures feedback ==> exists readings ::
                            && answers == old(answers) + readings && Polled(readings, ok)
                            && timer.ticks >= old(timer.ticks) + |readings| - 1
      ensures !feedback ==> ok && answers == old(answers) && timer.ticks >= old(timer.ticks) + delay
    {
      ghost var readings: seq<bool> := [];
      pin := !activeLow;
      if !feedback {
        timer.Sleep(delay);
        cameUp := true;
        return true;
      }
      for i := 0 to delay
        invariant timer.Valid() && timer.ticks >= old(timer.ticks) + i && Enabled()
        invariant answers == old(answers) + readings && |readings| == i && forall k | 0 <= k < i :: !readings[k]
      {
        var good := IsPowerGood();
        readings := readings + [good];
        if good {
          assert Polled(readings, true);
          cameUp := true;
          return true;
        }
        timer.Sleep(1);
      }
      ok := IsPowerGood();
      readings := readings + [ok];
      cameUp := ok;
      assert Polled(readings, ok);
    }

    /** The readings of one attempt: bad until the last, which decides; none is skipped. */
    ghost predicate Polled(readings: seq<bool>, ok: bool) {
      && 0 < |readings| <= delay + 1 && readings[|readings| - 1] == ok
      && (forall k | 0 <= k < |readings| - 1 :: !readings[k])
      && (!ok ==> |readings| == delay + 1)
    }

    method TurnOff()
      modifies this`pin
      ensures !Enabled() && pin == activeLow
    {
      pin := activeLow;
    }
  }

  // ---------------------------------------------------------------- resets

  datatype ReadyKind = Always | AfterDelay(ticks: nat) | DonePin

  /** The test of a delay line, on the counter values: 32-bit sum, and anything before the start
      counts as a wrap. */
  predicate DelayOver(tstart: nat, delay: nat, tnow: nat) {
    tnow < tstart || tnow > (tstart + delay) % WRAP
  }

  /** Released at time `t0`, looked at at time `t`: the delay is over too early exactly when the 32-bit
      sum of start and delay wraps, and then at once. */
  lemma DelayExactly(t0: nat, t: nat, delay: nat)
    requires t0 <= t < t0 + WRAP && delay < 0x1_0000
    ensures DelayOver(t0 % WRAP, delay, t % WRAP) <==> t - t0 > delay || t0 % WRAP + delay >= WRAP
  {
    var s := t0 % WRAP;
    assert t % WRAP == if s + (t - t0) < WRAP then s + (t - t0) else s + (t - t0) - WRAP;
  }

  /** A 200-tick delay that starts at 0 lasts its 200 ticks; started 100 ticks before the wrap,
      it is over at once. */
  lemma DelayCanVanish()
    ensures DelayOver(0xffff_ff9c, 200, 0xffff_ff9c)
    ensures !DelayOver(0, 200, 200)
  {
  }

  class ResetDescriptor {
    const activeLow: bool
    const kind: ReadyKind
    const timer: Timer
    var pin: bool
    var done: bool
    var tstart: nat
    /** When the line was last released. */
    ghost var releasedAt: nat
    /** Every answer of the ready test so far. */
    ghost var answers: seq<bool>

    predicate Released() reads this { pin == activeLow }

    /** A delay line that reports ready has been released for more than its delay, unless the sum wrapped. */
    ghost predicate Valid()
      reads this, timer
    {
      timer.Valid() && releasedAt <= timer.ticks
      && (kind.AfterDelay? ==>
            && kind.ticks < 0x1_0000 && tstart == releasedAt % WRAP
            && (done ==> Elapsed(timer.ticks)))
    }

    ghost predicate Elapsed(now: nat)
      reads this
    {
      kind.AfterDelay? ==> now > releasedAt + kind.ticks || releasedAt % WRAP + kind.ticks >= WRAP
    }

    constructor (activeLow: bool, kind: ReadyKind, timer: Timer)
      requires timer.Valid()
      requires kind.AfterDelay? ==> kind.ticks < 0x1_0000
      ensures Valid() && !Released() && this.timer == timer && this.kind == kind
    {
      this.activeLow, this.kind, this.timer := activeLow, kind, timer;
      pin := !activeLow;
      done, tstart, releasedAt, answers := false, 0, 0, [];
    }

    method Assert()
      requires Valid()
      modifies this`pin
      ensures Valid() && !Released() && pin == !activeLow
    {
      pin := !activeLow;
    }

    method Deassert()
      requires Valid()
      modifies this`pin, this`done, this`tstart, this`releasedAt, timer
      ensures Valid() && Released() && pin == activeLow
      ensures old(timer.ticks) <= releasedAt == timer.ticks
    {
      pin := activeLow;
      if kind.AfterDelay? {
        done := false;
        tstart := timer.GetCount();
      }
      releasedAt := timer.ticks;
    }

    method IsReady() returns (ready: bool)
      requires Valid()
      modifies this`done, this`answers, timer
      ensures Valid() && timer.ticks >= old(timer.ticks)
      ensures answers == old(answers) + [ready]
      ensures kind == Always ==> ready
      ensures kind.AfterDelay? ==> ready == done == (old(done) || DelayOver(tstart, kind.ticks, timer.count))
      ensures ready ==> Elapsed(timer.ticks)
      ensures ready && kind.AfterDelay? ==>
                timer.ticks > releasedAt + kind.ticks || releasedAt % 0x1_0000_0000 + kind.ticks >= 0x1_0000_0000
    {
      match kind {
        case Always => ready := true;
        case DonePin => ready := *;
        case AfterDelay(delay) =>
          var tnow := timer.GetCount();
          if DelayOver(tstart, delay, tnow) {
            done := true;
          }
          DelaySound(releasedAt, timer.ticks, delay);
          ready := done;
      }
      answers := answers + [ready];
    }
  }

  lemma DelaySound(t0: nat, t: nat, delay: nat)
    requires t0 <= t && delay < 0x1_0000
    ensures DelayOver(t0 % WRAP, delay, t % WRAP) ==> t - t0 > delay || t0 % WRAP + delay >= WRAP
  {
    if t < t0 + WRAP {
      DelayExactly(t0, t, delay);
    }
  }
}
