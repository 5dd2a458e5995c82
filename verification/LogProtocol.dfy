/** The multicore log on top of the mailboxes: each core accumulates characters and pushes them as one
    message, while any other core's producer or consumer may move between any two of its steps. */
module LogProtocol {
  import opened Bytes
  import opened IpcProtocol

  const NEWLINE: byte := 10
  const NEARLY_FULL := 128

  /** PrintBinary flushes after storing a character, with `pending` now in the buffer. For buffers
      of less than 128 bytes the source's unsigned comparison makes the second test false. */
  predicate MustFlush(bufSize: nat, pending: seq<byte>, ch: byte) {
    |pending| == bufSize || (ch == NEWLINE && bufSize >= NEARLY_FULL && |pending| > bufSize - NEARLY_FULL)
  }

  /** A character that does not fill the buffer is sent on at once exactly if it ends a line and fewer than
      128 bytes are left; with the last of them, any character is. */
  lemma FlushesWhen(bufSize: nat, pending: seq<byte>, ch: byte)
    requires 0 < |pending| <= bufSize && bufSize >= 128
    ensures MustFlush(bufSize, pending, ch) <==>
              bufSize - |pending| == 0 || (ch == '\n' as int && bufSize - |pending| < 128)
    ensures bufSize - |pending| == 127 ==> (MustFlush(bufSize, pending, ch) <==> ch == '\n' as int)
    ensures bufSize - |pending| == 128 ==> !MustFlush(bufSize, pending, ch)
  {
  }

  /** One core's side: its transmit buffer up to the write pointer, whether it is inside Flush, and
      everything printed on it. */
  datatype Core = Core(pending: seq<byte>, flushing: bool, printed: seq<byte>)

  /** Core `i` pushes to mailbox `i`. */
  datatype LogSystem = LogSystem(bufSize: nat, sys: System, cores: seq<Core>)

  datatype LogAction = Print(ch: byte) | Flush | Finish | Move(a: Action)

  function LogStep(l: LogSystem, i: nat, a: LogAction): (m: LogSystem)
    requires i < |l.cores| == |l.sys.boxes|
    ensures m.bufSize == l.bufSize && |m.cores| == |m.sys.boxes| == |l.cores|
  {
    var c := l.cores[i];
    match a
    case Print(ch) =>
      if c.flushing then l else
        var p := c.pending + [ch];
        var d := Core(p, MustFlush(l.bufSize, p, ch), c.printed + [ch]);
        l.(sys := if d.flushing then Step(l.sys, i, StartPush(p)) else l.sys, cores := l.cores[i := d])
    case Flush =>
      if c.flushing || c.pending == [] then l else
        l.(sys := Step(l.sys, i, StartPush(c.pending)), cores := l.cores[i := c.(flushing := true)])
    case Finish =>
      if c.flushing && l.sys.boxes[i].producer == NotPushing then
        l.(cores := l.cores[i := c.(pending := [], flushing := false)])
      else l
    case Move(b) =>
      if b.StartPush? then l else l.(sys := Step(l.sys, i, b))
  }

  function LogExecute(l: LogSystem, schedule: seq<(nat, LogAction)>): (m: LogSystem)
    requires |l.cores| == |l.sys.boxes|
    ensures m.bufSize == l.bufSize && |m.cores| == |m.sys.boxes| == |l.cores|
    decreases |schedule|
  {
    if schedule == [] then l
    else if schedule[0].0 < |l.cores| then LogExecute(LogStep(l, schedule[0].0, schedule[0].1), schedule[1..])
    else LogExecute(l, schedule[1..])
  }

  /** The message a producer is working on. */
  function Pushing(p: Producer): seq<Message> {
    match p
    case NotPushing => []
    case Waiting(msg) => [msg]
    case Copying(msg, _) => [msg]
    case Marking(msg) => [msg]
  }

  /** Characters printed but not yet accepted by the mailbox. */
  function Unsent(c: Core, b: Mailbox): seq<byte> {
    if c.flushing && b.producer == NotPushing then [] else c.pending
  }

  predicate CoreOk(bufSize: nat, c: Core, b: Mailbox) {
    && bufSize <= b.size
    && (if c.flushing then 0 < |c.pending| <= bufSize else |c.pending| < bufSize)
    && (b.producer != NotPushing ==> c.flushing && Pushing(b.producer) == [c.pending])
    && c.printed == Concat(b.accepted) + Unsent(c, b)
  }

  predicate LogInv(l: LogSystem) {
    && |l.cores| == |l.sys.boxes| && Inv(l.sys)
    && forall i | 0 <= i < |l.cores| :: CoreOk(l.bufSize, l.cores[i], l.sys.boxes[i])
  }

  /** Idle mailboxes at least as large as the log buffers, and nothing printed yet. */
  predicate LogInitial(l: LogSystem) {
    && l.bufSize > 0 && |l.cores| == |l.sys.boxes| && Initial(l.sys)
    && (forall b <- l.sys.boxes :: l.bufSize <= b.size)
    && forall c <- l.cores :: c == Core([], false, [])
  }

  lemma PrintKeeps(bufSize: nat, c: Core, b: Mailbox, ch: byte)
    requires CoreOk(bufSize, c, b) && !c.flushing
    ensures var p := c.pending + [ch];
            var d := Core(p, MustFlush(bufSize, p, ch), c.printed + [ch]);
            CoreOk(bufSize, d, if d.flushing then b.(producer := Waiting(p)) else b)
  {
    assert c.printed + [ch] == Concat(b.accepted) + (c.pending + [ch]);
  }

  /** A mailbox step accepts exactly the message its core is flushing, or leaves the account alone. */
  lemma MoveKeeps(l: LogSystem, i: nat, a: Action)
    requires LogInv(l) && i < |l.cores| && !a.StartPush?
    ensures CoreOk(l.bufSize, l.cores[i], Step(l.sys, i, a).boxes[i])
  {
    var b, c := l.sys.boxes[i], l.cores[i];
    assert CoreOk(l.bufSize, c, b);
    if a == MarkBusy && Enabled(l.sys, i, a) {
      ConcatAppend(b.accepted, c.pending);
      assert Concat(b.accepted) + c.pending + [] == Concat(b.accepted) + c.pending;
    }
  }

  lemma LogStepOwn(l: LogSystem, i: nat, a: LogAction)
    requires LogInv(l) && i < |l.cores|
    ensures var m := LogStep(l, i, a);
            CoreOk(m.bufSize, m.cores[i], m.sys.boxes[i])
  {
    var c, b := l.cores[i], l.sys.boxes[i];
    assert CoreOk(l.bufSize, c, b);
    match a {
      case Print(ch) => if !c.flushing { PrintKeeps(l.bufSize, c, b, ch); }
      case Move(b) => if !b.StartPush? { MoveKeeps(l, i, b); }
      case _ =>
    }
  }

  lemma LogStepKeeps(l: LogSystem, i: nat, a: LogAction)
    requires LogInv(l) && i < |l.cores|
    ensures LogInv(LogStep(l, i, a))
  {
    hide CoreOk, Inv;
    var m := LogStep(l, i, a);
    LogStepOwn(l, i, a);
    match a {
      case Print(ch) => StepKeepsInv(l.sys, i, StartPush(l.cores[i].pending + [ch]));
      case Flush => StepKeepsInv(l.sys, i, StartPush(l.cores[i].pending));
      case Finish =>
      case Move(b) => StepKeepsInv(l.sys, i, b);
    }
    forall j | 0 <= j < |m.cores| ensures CoreOk(m.bufSize, m.cores[j], m.sys.boxes[j]) {
      if j != i {
        assert m.cores[j] == l.cores[j] && m.sys.boxes[j] == l.sys.boxes[j];
      }
    }
  }

  lemma {:induction false} LogExecuteKeeps(l: LogSystem, schedule: seq<(nat, LogAction)>)
    requires LogInv(l)
    ensures LogInv(LogExecute(l, schedule))
    decreases |schedule|
  {
    hide LogStep, CoreOk, Inv;
    if schedule != [] {
      var (i, a) := schedule[0];
      if i < |l.cores| {
        LogStepKeeps(l, i, a);
        LogExecuteKeeps(LogStep(l, i, a), schedule[1..]);
      } else {
        LogExecuteKeeps(l, schedule[1..]);
      }
    }
  }

  /** Under every schedule, for every core: the characters the other core has received, then those in
      flight, then those not yet sent, are exactly the characters printed, in order. */
  lemma NothingLost(l: LogSystem, schedule: seq<(nat, LogAction)>, i: nat)
    requires LogInitial(l) && i < |l.cores|
    ensures var m := LogExecute(l, schedule);
            m.cores[i].printed == Concat(m.sys.boxes[i].received) + Concat(InFlight(m.sys, i))
                                  + Unsent(m.cores[i], m.sys.boxes[i])
  {
    LogStartsAndStays(l, schedule);
    var m := LogExecute(l, schedule);
    var b := m.sys.boxes[i];
    assert CoreOk(m.bufSize, m.cores[i], b);
    AcceptedSplit(m.sys, i);
    if b.flag in m.sys.busy {
      var msg := InFlight(m.sys, i)[0];
      ConcatAppend(b.received, msg);
      assert Concat([msg]) == msg + Concat([]) == msg;
    } else {
      assert b.accepted == b.received;
      assert Concat(b.received) + [] == Concat(b.received);
    }
  }

  /** The write pointer is inside the buffer whenever a character can be printed. */
  lemma PrintHasRoom(l: LogSystem, schedule: seq<(nat, LogAction)>, i: nat)
    requires LogInitial(l) && i < |l.cores|
    ensures var c := LogExecute(l, schedule).cores[i]; !c.flushing ==> |c.pending| < l.bufSize
  {
    LogStartsAndStays(l, schedule);
    var m := LogExecute(l, schedule);
    assert CoreOk(m.bufSize, m.cores[i], m.sys.boxes[i]);
  }

  lemma LogStartsAndStays(l: LogSystem, schedule: seq<(nat, LogAction)>)
    requires LogInitial(l)
    ensures LogInv(LogExecute(l, schedule))
  {
    InitialInv(l.sys);
    forall i | 0 <= i < |l.cores| ensures CoreOk(l.bufSize, l.cores[i], l.sys.boxes[i]) {
      assert l.sys.boxes[i] in l.sys.boxes && l.cores[i] in l.cores;
    }
    LogExecuteKeeps(l, schedule);
  }

  /** The mailbox must be at least as large as what is flushed: a larger flush goes nowhere, and the
      write pointer is reset all the same. */
  lemma FlushIsDelivered(l: LogSystem, i: nat)
    requires i < |l.cores| == |l.sys.boxes| && !l.cores[i].flushing && l.cores[i].pending != []
    requires l.sys.boxes[i].producer == NotPushing
    ensures var m := LogStep(LogStep(l, i, Flush), i, Finish);
            if |l.cores[i].pending| <= l.sys.boxes[i].size
            then Pushing(m.sys.boxes[i].producer) == [l.cores[i].pending] && m.cores[i].pending == l.cores[i].pending
            else m.sys == l.sys && m.cores[i].pending == []
  {
  }

  /** Two characters, a mailbox of one byte: they are never sent. */
  lemma FlushCanBeLost()
    ensures var l := LogSystem(2, System([0], {}, [Mailbox(0, 1, 0, 0, NotPushing, NotPopping, [], [])]),
                               [Core([65, 66], false, [65, 66])]);
            var m := LogStep(LogStep(l, 0, Flush), 0, Finish);
            m.cores[0].pending == [] && m.sys == l.sys && m.cores[0].printed == [65, 66]
  {
    FlushIsDelivered(LogSystem(2, System([0], {}, [Mailbox(0, 1, 0, 0, NotPushing, NotPopping, [], [])]),
                               [Core([65, 66], false, [65, 66])]), 0);
  }
}
