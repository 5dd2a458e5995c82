/** The cross-core mailboxes as an interleaving of small steps over one shared memory and one set of
    hardware busy flags. Each mailbox has one producer (Push) and one consumer (Pop); a memcpy is one
    step per byte. Any number of mailboxes run at the same time. */
module IpcProtocol {
  import opened Bytes

  type Message = seq<byte>

  /** A program counter inside Push, with its locals. */
  datatype Producer =
    | NotPushing
    | Waiting(msg: Message)
    | Copying(msg: Message, copied: nat)
    | Marking(msg: Message)

  /** A program counter inside Pop. */
  datatype Consumer =
    | NotPopping
    | Peeked
    | Reading(size: nat, got: Message)

  /** `flag` is the busy bit of this direction of this channel; the histories are ghosts of the protocol. */
  datatype Mailbox = Mailbox(
    base: nat, size: nat, flag: nat, writePtr: nat,
    producer: Producer, consumer: Consumer,
    accepted: seq<Message>, received: seq<Message>)

  datatype System = System(mem: seq<byte>, busy: set<nat>, boxes: seq<Mailbox>)

  datatype Action =
    | StartPush(msg: Message) | TestFree | CopyByte | StoreSize | MarkBusy
    | TestBusy | ReadSize | ReadByte | Release

  predicate Enabled(s: System, i: nat, a: Action)
    requires i < |s.boxes|
  {
    var b := s.boxes[i];
    match a
    case StartPush(msg) => b.producer == NotPushing && |msg| <= b.size
    case TestFree => b.producer.Waiting? && b.flag !in s.busy
    case CopyByte => b.producer.Copying? && b.producer.copied < |b.producer.msg| && b.base + b.producer.copied < |s.mem|
    case StoreSize => b.producer.Copying? && b.producer.copied == |b.producer.msg|
    case MarkBusy => b.producer.Marking?
    case TestBusy => b.consumer == NotPopping && b.flag in s.busy
    case ReadSize => b.consumer == Peeked
    case ReadByte => b.consumer.Reading? && |b.consumer.got| < b.consumer.size && b.base + |b.consumer.got| < |s.mem|
    case Release => b.consumer.Reading? && |b.consumer.got| == b.consumer.size
  }

  /** One step of mailbox `i`. A step that is not enabled leaves the system alone: an oversized push
      returns early, and a test of the flag is repeated. */
  function Step(s: System, i: nat, a: Action): (t: System)
    requires i < |s.boxes|
    ensures |t.boxes| == |s.boxes| && |t.mem| == |s.mem|
  {
    if !Enabled(s, i, a) then s else
      var b := s.boxes[i];
      match a
      case StartPush(msg) => SetBox(s, i, b.(producer := Waiting(msg)))
      case TestFree => SetBox(s, i, b.(producer := Copying(b.producer.msg, 0)))
      case CopyByte =>
        var k := b.producer.copied;
        SetBox(s.(mem := s.mem[b.base + k := b.producer.msg[k]]), i, b.(producer := Copying(b.producer.msg, k + 1)))
      case StoreSize =>
        SetBox(s, i, b.(producer := Marking(b.producer.msg), writePtr := |b.producer.msg|))
      case MarkBusy =>
        SetBox(s.(busy := s.busy + {b.flag}), i,
               b.(producer := NotPushing, accepted := b.accepted + [b.producer.msg]))
      case TestBusy => SetBox(s, i, b.(consumer := Peeked))
      case ReadSize => SetBox(s, i, b.(consumer := Reading(b.writePtr, [])))
      case ReadByte =>
        SetBox(s, i, b.(consumer := Reading(b.consumer.size, b.consumer.got + [s.mem[b.base + |b.consumer.got|]])))
      case Release =>
        SetBox(s.(busy := s.busy - {b.flag}), i,
               b.(consumer := NotPopping, received := b.received + [b.consumer.got]))
  }

  function SetBox(s: System, i: nat, b: Mailbox): System
    requires i < |s.boxes|
  {
    s.(boxes := s.boxes[i := b])
  }

  /** A schedule says which mailbox moves next, and how. */
  function Execute(s: System, schedule: seq<(nat, Action)>): (t: System)
    ensures |t.boxes| == |s.boxes|
    decreases |schedule|
  {
    if schedule == [] then s
    else if schedule[0].0 < |s.boxes| then Execute(Step(s, schedule[0].0, schedule[0].1), schedule[1..])
    else Execute(s, schedule[1..])
  }

  lemma ExecuteFirst(s: System, i: nat, a: Action, rest: seq<(nat, Action)>)
    requires i < |s.boxes|
    ensures Execute(s, [(i, a)] + rest) == Execute(Step(s, i, a), rest)
  {
    assert ([(i, a)] + rest)[1..] == rest;
  }

  // ---------------------------------------------------------------- the invariant

  predicate Disjoint(b: Mailbox, c: Mailbox) {
    b.flag != c.flag && (b.base + b.size <= c.base || c.base + c.size <= b.base)
  }

  predicate LaidOut(s: System) {
    && (forall i | 0 <= i < |s.boxes| :: s.boxes[i].base + s.boxes[i].size <= |s.mem|)
    && (forall i, j | 0 <= i < |s.boxes| && 0 <= j < |s.boxes| && i != j :: Disjoint(s.boxes[i], s.boxes[j]))
  }

  /** The first `n` bytes of a mailbox's buffer. */
  function Front(mem: seq<byte>, b: Mailbox, n: nat): seq<byte>
    requires b.base + n <= |mem|
  {
    mem[b.base..b.base + n]
  }

  predicate Holds(mem: seq<byte>, b: Mailbox, data: seq<byte>) {
    |data| <= b.size && b.base + b.size <= |mem| && Front(mem, b, |data|) == data
  }

  /** What is known about one mailbox, given the memory and its busy flag. */
  predicate BoxOk(mem: seq<byte>, busy: bool, b: Mailbox) {
    && b.base + b.size <= |mem| && b.writePtr <= b.size
    && (match b.producer
        case NotPushing => true
        case Waiting(msg) => |msg| <= b.size
        case Copying(msg, k) => !busy && |msg| <= b.size && k <= |msg| && Holds(mem, b, msg[..k])
        case Marking(msg) => !busy && b.writePtr == |msg| && Holds(mem, b, msg))
    && (match b.consumer
        case NotPopping => true
        case Peeked => busy
        case Reading(n, got) => busy && n == b.writePtr && |got| <= n && Holds(mem, b, got))
    && b.accepted == b.received + if busy then [Front(mem, b, b.writePtr)] else []
  }

  predicate Inv(s: System) {
    LaidOut(s) && forall i | 0 <= i < |s.boxes| :: BoxOk(s.mem, s.boxes[i].flag in s.busy, s.boxes[i])
  }

  /** Nothing is being pushed or popped, and no flag is set. */
  predicate Initial(s: System) {
    LaidOut(s) && s.busy == {}
    && forall b <- s.boxes :: b.producer == NotPushing && b.consumer == NotPopping
                              && b.writePtr == 0 && b.accepted == b.received == []
  }

  predicate ProducerAction(a: Action) {
    a.StartPush? || a == TestFree || a == CopyByte || a == StoreSize || a == MarkBusy
  }

  lemma PushStepKeepsOwn(s: System, i: nat, a: Action)
    requires i < |s.boxes| && BoxOk(s.mem, s.boxes[i].flag in s.busy, s.boxes[i]) && ProducerAction(a)
    ensures var t := Step(s, i, a); BoxOk(t.mem, t.boxes[i].flag in t.busy, t.boxes[i])
  {
    var b := s.boxes[i];
    if Enabled(s, i, a) {
      if a == CopyByte {
        CopyKeeps(s.mem, b);
      } else if a == StoreSize {
        assert b.producer.msg[..b.producer.copied] == b.producer.msg;
      }
    }
  }

  lemma PopStepKeepsOwn(s: System, i: nat, a: Action)
    requires i < |s.boxes| && BoxOk(s.mem, s.boxes[i].flag in s.busy, s.boxes[i]) && !ProducerAction(a)
    ensures var t := Step(s, i, a); BoxOk(t.mem, t.boxes[i].flag in t.busy, t.boxes[i])
  {
    var b := s.boxes[i];
    if Enabled(s, i, a) && a == ReadByte {
      var k := |b.consumer.got|;
      assert Front(s.mem, b, k + 1) == Front(s.mem, b, k) + [s.mem[b.base + k]];
    }
  }

  lemma CopyKeeps(mem: seq<byte>, b: Mailbox)
    requires b.producer.Copying? && b.producer.copied < |b.producer.msg|
    requires BoxOk(mem, false, b)
    ensures var k := b.producer.copied;
            var mem' := mem[b.base + k := b.producer.msg[k]];
            Holds(mem', b, b.producer.msg[..k + 1])
  {
    var k, msg := b.producer.copied, b.producer.msg;
    var mem' := mem[b.base + k := msg[k]];
    assert Front(mem', b, k) == Front(mem, b, k);
    assert Front(mem', b, k + 1) == Front(mem', b, k) + [msg[k]];
    assert msg[..k + 1] == msg[..k] + [msg[k]];
  }

  /** No mailbox disturbs another: only its own bytes and its own flag change. */
  lemma StepKeepsOthers(s: System, i: nat, j: nat, a: Action)
    requires i < |s.boxes| && j < |s.boxes| && i != j && LaidOut(s)
    requires BoxOk(s.mem, s.boxes[i].flag in s.busy, s.boxes[i])
    ensures var t := Step(s, i, a);
            && t.boxes[j] == s.boxes[j] && (t.boxes[j].flag in t.busy <==> s.boxes[j].flag in s.busy)
            && Front(t.mem, t.boxes[j], t.boxes[j].size) == Front(s.mem, s.boxes[j], s.boxes[j].size)
  {
    assert Disjoint(s.boxes[i], s.boxes[j]);
  }

  lemma SameBytesOk(mem: seq<byte>, mem': seq<byte>, busy: bool, b: Mailbox)
    requires BoxOk(mem, busy, b) && |mem'| == |mem|
    requires Front(mem', b, b.size) == Front(mem, b, b.size)
    ensures BoxOk(mem', busy, b)
  {
    forall n: nat | n <= b.size ensures Front(mem', b, n) == Front(mem, b, n) {
      assert Front(mem', b, n) == Front(mem', b, b.size)[..n];
      assert Front(mem, b, n) == Front(mem, b, b.size)[..n];
    }
  }

  lemma StepKeepsInv(s: System, i: nat, a: Action)
    requires i < |s.boxes| && Inv(s)
    ensures Inv(Step(s, i, a))
  {
    hide BoxOk, Holds;
    var t := Step(s, i, a);
    if ProducerAction(a) { PushStepKeepsOwn(s, i, a); } else { PopStepKeepsOwn(s, i, a); }
    StepKeepsLayout(s, i, a);
    forall j | 0 <= j < |t.boxes| ensures BoxOk(t.mem, t.boxes[j].flag in t.busy, t.boxes[j]) {
      if j != i {
        StepKeepsOthers(s, i, j, a);
        SameBytesOk(s.mem, t.mem, s.boxes[j].flag in s.busy, s.boxes[j]);
      }
    }
  }

  lemma StepKeepsLayout(s: System, i: nat, a: Action)
    requires i < |s.boxes| && LaidOut(s)
    ensures LaidOut(Step(s, i, a))
  {
    var b, t := s.boxes[i], Step(s, i, a);
    var c := t.boxes[i];
    assert c.base == b.base && c.size == b.size && c.flag == b.flag;
    forall j, k | 0 <= j < |t.boxes| && 0 <= k < |t.boxes| && j != k
      ensures Disjoint(t.boxes[j], t.boxes[k])
    {
      assert Disjoint(s.boxes[j], s.boxes[k]);
    }
  }

  lemma InitialInv(s: System)
    requires Initial(s)
    ensures Inv(s)
  {
    forall i | 0 <= i < |s.boxes| ensures BoxOk(s.mem, s.boxes[i].flag in s.busy, s.boxes[i]) {
      assert s.boxes[i] in s.boxes;
    }
  }

  lemma {:induction false} ExecuteKeepsInv(s: System, schedule: seq<(nat, Action)>)
    requires Inv(s)
    ensures Inv(Execute(s, schedule))
    decreases |schedule|
  {
    hide Inv, Step;
    if schedule != [] {
      var (i, a) := schedule[0];
      if i < |s.boxes| {
        StepKeepsInv(s, i, a);
        ExecuteKeepsInv(Step(s, i, a), schedule[1..]);
      } else {
        ExecuteKeepsInv(s, schedule[1..]);
      }
    }
  }

  // ---------------------------------------------------------------- what the protocol guarantees

  /** The message that has been marked busy and not yet released, if any. */
  function InFlight(s: System, i: nat): seq<Message>
    requires i < |s.boxes|
  {
    var b := s.boxes[i];
    if b.flag in s.busy && b.base + b.writePtr <= |s.mem| then [Front(s.mem, b, b.writePtr)] else []
  }

  lemma AcceptedSplit(s: System, i: nat)
    requires Inv(s) && i < |s.boxes|
    ensures s.boxes[i].accepted == s.boxes[i].received + InFlight(s, i)
    ensures s.boxes[i].flag in s.busy <==> |InFlight(s, i)| == 1
  {
    assert BoxOk(s.mem, s.boxes[i].flag in s.busy, s.boxes[i]);
  }

  /** Under every schedule, what has been accepted is what has been received, whole and in order,
      followed by at most one message in flight. */
  lemma NoTornMessages(s: System, schedule: seq<(nat, Action)>, i: nat)
    requires Initial(s) && i < |s.boxes|
    ensures var t := Execute(s, schedule);
            t.boxes[i].accepted == t.boxes[i].received + InFlight(t, i)
  {
    InitialInv(s);
    ExecuteKeepsInv(s, schedule);
    AcceptedSplit(Execute(s, schedule), i);
  }

  predicate InBuffer(b: Mailbox, addr: nat) { b.base <= addr < b.base + b.size }

  /** The buffer and the size are written only while the channel is free, and only by its producer;
      they are read only while it is busy. */
  lemma Ownership(s: System, i: nat, j: nat, a: Action)
    requires Inv(s) && i < |s.boxes| && j < |s.boxes|
    ensures var t := Step(s, j, a);
            (t.boxes[i].writePtr != s.boxes[i].writePtr
             || exists addr :: 0 <= addr < |s.mem| && InBuffer(s.boxes[i], addr) && t.mem[addr] != s.mem[addr])
            ==> i == j && s.boxes[i].flag !in s.busy && s.boxes[i].producer.Copying?
    ensures Enabled(s, i, a) && (a == ReadSize || a == ReadByte || a == Release) ==> s.boxes[i].flag in s.busy
  {
    assert BoxOk(s.mem, s.boxes[i].flag in s.busy, s.boxes[i]);
    assert BoxOk(s.mem, s.boxes[j].flag in s.busy, s.boxes[j]);
    if i != j {
      assert Disjoint(s.boxes[i], s.boxes[j]);
    }
  }

  /** The steps of one Pop of an `n`-byte message, after its flag test. */
  function PopSteps(i: nat, n: nat): seq<(nat, Action)> {
    if n == 0 then [(i, Release)] else [(i, ReadByte)] + PopSteps(i, n - 1)
  }

  /** A consumer left to itself finishes the Pop it is in: the message in flight is delivered,
      and the channel becomes free for a waiting producer. */
  lemma {:induction false} ReadingFinishes(s: System, i: nat)
    requires Inv(s) && i < |s.boxes| && s.boxes[i].consumer.Reading?
    ensures var c := s.boxes[i].consumer;
            var t := Execute(s, PopSteps(i, c.size - |c.got|));
            && t.boxes[i].flag !in t.busy && t.boxes[i].accepted == s.boxes[i].accepted
            && t.boxes[i].received == s.boxes[i].received + InFlight(s, i)
    decreases s.boxes[i].consumer.size - |s.boxes[i].consumer.got|
  {
    var c := s.boxes[i].consumer;
    assert BoxOk(s.mem, s.boxes[i].flag in s.busy, s.boxes[i]);
    hide BoxOk, Execute;
    if |c.got| < c.size {
      StepKeepsInv(s, i, ReadByte);
      ReadingFinishes(Step(s, i, ReadByte), i);
      ExecuteFirst(s, i, ReadByte, PopSteps(i, c.size - |c.got| - 1));
    } else {
      ReleaseDelivers(s, i);
    }
  }

  lemma ReleaseDelivers(s: System, i: nat)
    requires Inv(s) && i < |s.boxes| && s.boxes[i].consumer.Reading?
    requires |s.boxes[i].consumer.got| == s.boxes[i].consumer.size
    ensures Execute(s, [(i, Release)]) == Step(s, i, Release)
    ensures var t := Step(s, i, Release);
            && t.boxes[i].flag !in t.busy && t.boxes[i].accepted == s.boxes[i].accepted
            && t.boxes[i].received == s.boxes[i].received + InFlight(s, i)
  {
    assert [(i, Release)] == [(i, Release)] + [];
    ExecuteFirst(s, i, Release, []);
    assert BoxOk(s.mem, s.boxes[i].flag in s.busy, s.boxes[i]);
  }

  /** A Pop that finds the channel busy reads the size next. */
  function PopStarted(s: System, i: nat): System
    requires i < |s.boxes|
  {
    SetBox(s, i, s.boxes[i].(consumer := Reading(s.boxes[i].writePtr, [])))
  }

  lemma PopStarts(s: System, i: nat)
    requires Inv(s) && i < |s.boxes| && s.boxes[i].consumer == NotPopping && s.boxes[i].flag in s.busy
    ensures Step(Step(s, i, TestBusy), i, ReadSize) == PopStarted(s, i)
    ensures Inv(PopStarted(s, i)) && InFlight(PopStarted(s, i), i) == InFlight(s, i)
  {
    hide BoxOk;
    StepKeepsInv(s, i, TestBusy);
    StepKeepsInv(Step(s, i, TestBusy), i, ReadSize);
  }

  lemma PopDelivers(s: System, i: nat)
    requires Inv(s) && i < |s.boxes| && s.boxes[i].consumer == NotPopping && s.boxes[i].flag in s.busy
    ensures var t := Execute(s, [(i, TestBusy), (i, ReadSize)] + PopSteps(i, s.boxes[i].writePtr));
            && t.boxes[i].flag !in t.busy
            && t.boxes[i].received == s.boxes[i].received + InFlight(s, i) == t.boxes[i].accepted
  {
    hide Inv, Execute, Step, InFlight;
    var rest := PopSteps(i, s.boxes[i].writePtr);
    PopStarts(s, i);
    assert [(i, TestBusy), (i, ReadSize)] + rest == [(i, TestBusy)] + ([(i, ReadSize)] + rest);
    ExecuteFirst(s, i, TestBusy, [(i, ReadSize)] + rest);
    ExecuteFirst(Step(s, i, TestBusy), i, ReadSize, rest);
    ReadingFinishes(PopStarted(s, i), i);
    ExecuteKeepsInv(PopStarted(s, i), rest);
    ReceivedIsAccepted(Execute(PopStarted(s, i), rest), i);
  }

  lemma ReceivedIsAccepted(s: System, i: nat)
    requires Inv(s) && i < |s.boxes| && s.boxes[i].flag !in s.busy
    ensures s.boxes[i].received == s.boxes[i].accepted
  {
    assert BoxOk(s.mem, s.boxes[i].flag in s.busy, s.boxes[i]);
  }

  /** The steps of one Push that has found its channel free, with `n` bytes to go. */
  function PushSteps(i: nat, n: nat): seq<(nat, Action)> {
    if n == 0 then [(i, StoreSize), (i, MarkBusy)] else [(i, CopyByte)] + PushSteps(i, n - 1)
  }

  /** The channel carries exactly `msg`, and the producer is done. */
  predicate Sent(s: System, t: System, i: nat, msg: Message)
    requires i < |s.boxes| == |t.boxes|
  {
    && t.boxes[i].flag in t.busy && t.boxes[i].producer == NotPushing
    && t.boxes[i].accepted == s.boxes[i].accepted + [msg] && t.boxes[i].received == s.boxes[i].received
    && t.boxes[i].consumer == s.boxes[i].consumer
  }

  /** A producer left to itself finishes the Push it is in. */
  lemma {:induction false} CopyingFinishes(s: System, i: nat)
    requires Inv(s) && i < |s.boxes| && s.boxes[i].producer.Copying?
    ensures var p := s.boxes[i].producer;
            Sent(s, Execute(s, PushSteps(i, |p.msg| - p.copied)), i, p.msg)
    decreases |s.boxes[i].producer.msg| - s.boxes[i].producer.copied
  {
    var p := s.boxes[i].producer;
    assert BoxOk(s.mem, s.boxes[i].flag in s.busy, s.boxes[i]);
    hide BoxOk, Execute;
    if p.copied < |p.msg| {
      StepKeepsInv(s, i, CopyByte);
      CopyingFinishes(Step(s, i, CopyByte), i);
      ExecuteFirst(s, i, CopyByte, PushSteps(i, |p.msg| - p.copied - 1));
    } else {
      ExecuteTwo(s, i, StoreSize, MarkBusy);
    }
  }

  lemma ExecuteTwo(s: System, i: nat, a: Action, b: Action)
    requires i < |s.boxes|
    ensures Execute(s, [(i, a), (i, b)]) == Step(Step(s, i, a), i, b)
  {
    assert [(i, a), (i, b)] == [(i, a)] + ([(i, b)] + []);
    ExecuteFirst(s, i, a, [(i, b)] + []);
    ExecuteFirst(Step(s, i, a), i, b, []);
  }

  lemma PushSends(s: System, i: nat, msg: Message)
    requires Inv(s) && i < |s.boxes| && s.boxes[i].producer == NotPushing && s.boxes[i].flag !in s.busy
    requires |msg| <= s.boxes[i].size
    ensures Sent(s, Execute(s, [(i, StartPush(msg)), (i, TestFree)] + PushSteps(i, |msg|)), i, msg)
  {
    hide Inv, Execute, BoxOk;
    var rest := PushSteps(i, |msg|);
    var u := Step(s, i, StartPush(msg));
    StepKeepsInv(s, i, StartPush(msg));
    StepKeepsInv(u, i, TestFree);
    assert [(i, StartPush(msg)), (i, TestFree)] + rest == [(i, StartPush(msg))] + ([(i, TestFree)] + rest);
    ExecuteFirst(s, i, StartPush(msg), [(i, TestFree)] + rest);
    ExecuteFirst(u, i, TestFree, rest);
    CopyingFinishes(Step(u, i, TestFree), i);
  }

  /** A Push, then a Pop: exactly the pushed message comes out, and the channel is free again. */
  lemma PushThenPop(s: System, i: nat, msg: Message) returns (schedule: seq<(nat, Action)>)
    requires Inv(s) && i < |s.boxes| && s.boxes[i].flag !in s.busy && |msg| <= s.boxes[i].size
    requires s.boxes[i].producer == NotPushing && s.boxes[i].consumer == NotPopping
    ensures var t := Execute(s, schedule);
            && t.boxes[i].received == s.boxes[i].received + [msg]
            && t.boxes[i].flag !in t.busy
  {
    hide Inv, Execute, Step, InFlight;
    var push := [(i, StartPush(msg)), (i, TestFree)] + PushSteps(i, |msg|);
    PushSends(s, i, msg);
    ExecuteKeepsInv(s, push);
    var u := Execute(s, push);
    var pop := [(i, TestBusy), (i, ReadSize)] + PopSteps(i, u.boxes[i].writePtr);
    PopDelivers(u, i);
    AcceptedSplit(u, i);
    ReceivedIsAccepted(s, i);
    ExecuteJoin(s, push, pop);
    schedule := push + pop;
  }

  lemma {:induction false} ExecuteJoin(s: System, a: seq<(nat, Action)>, b: seq<(nat, Action)>)
    ensures Execute(s, a + b) == Execute(Execute(s, a), b)
    decreases |a|
  {
    if a == [] {
      assert a + b == b;
    } else {
      assert (a + b)[1..] == a[1..] + b;
      ExecuteJoin(if a[0].0 < |s.boxes| then Step(s, a[0].0, a[0].1) else s, a[1..], b);
    }
  }
}
