/** The iperf3 server: a table of connections changed in place by socket events and the main loop. */
module Iperf3Server {
  import opened Bytes
  import opened Decimals
  import opened IperfJson
  import opened Options

  const COOKIE_SIZE := 37
  const RX_BUFFER_SIZE := 256
  const MAX_BLOCK := 1480
  const TEST_END: byte := 4
  const UINT32 := 0x1_0000_0000

  datatype State = Start | ParamExchange | CreateStreams | TestStart | TestRunning | ExchangeResults

  datatype Connection = Connection(
    valid: bool, socket: nat, state: State, rx: seq<byte>,
    udp: bool, reverse: bool, time: nat, bandwidth: nat, len: nat, clientPort: nat, sequence: nat)

  /** What Clear leaves. */
  const CLEARED := Connection(false, 0, Start, [], false, false, 0, 0, 0, 0, 0)

  // ---------------------------------------------------------------- parameters

  const UDP: seq<byte> := [0x75, 0x64, 0x70]  // udp
  const REVERSE: seq<byte> := [0x72, 0x65, 0x76, 0x65, 0x72, 0x73, 0x65]  // reverse
  const TIME: seq<byte> := [0x74, 0x69, 0x6d, 0x65]  // time
  const LEN: seq<byte> := [0x6c, 0x65, 0x6e]  // len
  const BANDWIDTH: seq<byte> := [0x62, 0x61, 0x6e, 0x64, 0x77, 0x69, 0x64, 0x74, 0x68]  // bandwidth
  const TRUE: seq<byte> := [0x74, 0x72, 0x75, 0x65]  // true
  const FALSE: seq<byte> := [0x66, 0x61, 0x6c, 0x73, 0x65]  // false

  function Digits(s: seq<byte>, value: int): int {
    if s == [] || !IsDigit(s[0]) then value else Digits(s[1..], 10 * value + (s[0] as int - 0x30))
  }

  predicate IsSpace(c: byte) { c == 0x20 || 0x09 <= c <= 0x0d }

  function SkipSpaces(s: seq<byte>): seq<byte> {
    if s != [] && IsSpace(s[0]) then SkipSpaces(s[1..]) else s
  }

  /** What atoi reads: spaces, a sign, and the digits up to the first other character. */
  function Atoi(s: seq<byte>): int {
    var t := SkipSpaces(s);
    if t != [] && t[0] == 0x2d then -Digits(t[1..], 0)
    else if t != [] && t[0] == 0x2b then Digits(t[1..], 0)
    else Digits(t, 0)
  }

  /** The number is an int; C says nothing about others. */
  predicate InInt(s: seq<byte>) { -0x8000_0000 <= Atoi(s) < 0x8000_0000 }

  /** atoi, then conversion to a 32-bit unsigned number. */
  function Atoi32(s: seq<byte>): (n: nat)
    ensures n < UINT32
  {
    Atoi(s) % UINT32
  }

  lemma {:induction false} DigitsSplit(a: seq<byte>, b: seq<byte>, value: int)
    requires AllDigits(a)
    ensures Digits(a + b, value) == Digits(b, Digits(a, value))
    decreases |a|
  {
    if a == [] {
      assert a + b == b;
    } else {
      assert (a + b)[1..] == a[1..] + b;
      DigitsSplit(a[1..], b, 10 * value + (a[0] as int - 0x30));
    }
  }

  lemma {:induction false} DigitsValue(a: seq<byte>)
    requires AllDigits(a)
    ensures Digits(a, 0) == Value(a)
  {
    if a != [] {
      var n := |a| - 1;
      assert a == a[..n] + [a[n]];
      DigitsValue(a[..n]);
      DigitsSplit(a[..n], [a[n]], 0);
    }
  }

  /** A printed int is read back, whatever follows its digits. */
  lemma AtoiDecimal(n: nat, rest: seq<byte>)
    requires n < 0x8000_0000 && (rest == [] || !IsDigit(rest[0]))
    ensures InInt(Decimal(n) + rest) && Atoi32(Decimal(n) + rest) == n
  {
    var s := Decimal(n);
    DecimalValue(n);
    DigitsValue(s);
    DigitsSplit(s, rest, 0);
    assert Digits(rest, n) == n;
    hide Atoi, Digits, Decimal, Value;
    assert (s + rest)[0] == s[0] && IsDigit(s[0]);
    AtoiDigits(s + rest);
  }

  lemma AtoiDigits(s: seq<byte>)
    requires s != [] && IsDigit(s[0])
    ensures Atoi(s) == Digits(s, 0)
  {
    hide Digits;
  }

  datatype Key = UdpMode | ReverseMode | Duration | BlockLength | Bandwidth | Ignored

  function KeyOf(name: seq<byte>): Key {
    if name == UDP then UdpMode
    else if name == REVERSE then ReverseMode
    else if name == TIME then Duration
    else if name == LEN then BlockLength
    else if name == BANDWIDTH then Bandwidth
    else Ignored
  }

  datatype Setting = Unset | Set(value: bool) {
    function Or(default: bool): bool { if Unset? then default else value }
  }

  /** A boolean setting; anything but true or false is ignored with a warning. */
  function SettingOf(value: seq<byte>): Setting {
    if value == TRUE then Set(true) else if value == FALSE then Set(false) else Unset
  }

  /** OnJsonConfigField; the texts are C strings. */
  function ApplyField(c: Connection, f: Field): Connection {
    var value := CString(f.value);
    match KeyOf(CString(f.name))
    case UdpMode => c.(udp := SettingOf(value).Or(c.udp))
    case ReverseMode => c.(reverse := SettingOf(value).Or(c.reverse))
    case Duration => c.(time := Atoi32(value))
    case BlockLength => c.(len := Atoi32(value))
    case Bandwidth => c.(bandwidth := Atoi32(value))
    case Ignored => c
  }

  function ApplyFields(c: Connection, fields: seq<Field>): Connection
    decreases |fields|
  {
    if fields == [] then c else ApplyFields(ApplyField(c, fields[0]), fields[1..])
  }

  predicate Acceptable(c: Connection) { c.udp && c.reverse && c.len < MAX_BLOCK }

  /** A whole parameter message is buffered and starts with a brace. */
  predicate ParamsReady(rx: seq<byte>) {
    |rx| >= 6 && |rx| >= 4 + BigEndian32(rx) && rx[4] == OPEN_BRACE
  }

  /** No message length is so large that the source's 32-bit sum of it and 4 wraps. */
  predicate LengthFits(rx: seq<byte>) { |rx| >= 6 ==> 4 + BigEndian32(rx) < UINT32 }

  /** Nor is that of the message a connection is about to look at. */
  predicate LengthsFit(c: Connection) {
    (c.state == ParamExchange ==> LengthFits(c.rx))
    && (c.state == Start && |c.rx| >= COOKIE_SIZE ==> LengthFits(c.rx[COOKIE_SIZE..]))
  }

  /** The fields of the message that starts the buffer. A message of length 0 has none. */
  function MessageFields(rx: seq<byte>): Outcome
    requires ParamsReady(rx)
  {
    var n := BigEndian32(rx);
    if n == 0 then Parsed([], false) else ParseFrom(OpenQuote, rx[5..4 + n], [])
  }

  function AfterParams(c: Connection): Connection
    requires ParamsReady(c.rx)
  {
    match MessageFields(c.rx)
    case Dropped => CLEARED
    case Parsed(fields, _) =>
      var d := ApplyFields(c, fields).(rx := c.rx[4 + BigEndian32(c.rx)..], state := CreateStreams);
      if Acceptable(d) then d else CLEARED
  }

  /** Parameters change nothing but the parameters. */
  predicate SameSession(c: Connection, d: Connection) {
    d.valid == c.valid && d.socket == c.socket && d.state == c.state && d.rx == c.rx
    && d.sequence == c.sequence && d.clientPort == c.clientPort
  }

  lemma {:induction false} FieldsKeepSession(c: Connection, fields: seq<Field>)
    ensures SameSession(c, ApplyFields(c, fields))
    decreases |fields|
  {
    hide CString, KeyOf, SettingOf, Atoi32;
    if fields != [] { FieldsKeepSession(ApplyField(c, fields[0]), fields[1..]); }
  }

  lemma {:induction false} ApplyLast(c: Connection, fields: seq<Field>, f: Field)
    ensures ApplyFields(c, fields + [f]) == ApplyField(ApplyFields(c, fields), f)
    decreases |fields|
  {
    hide ApplyField;
    if fields == [] {
      assert (fields + [f])[1..] == [];
    } else {
      assert (fields + [f])[1..] == fields[1..] + [f];
      ApplyLast(ApplyField(c, fields[0]), fields[1..], f);
    }
  }

  /** The last field that gives a key a boolean value. */
  function LastSetting(fields: seq<Field>, key: Key): Setting {
    if fields == [] then Unset else
      var f := fields[|fields| - 1];
      if KeyOf(CString(f.name)) == key && SettingOf(CString(f.value)) != Unset then SettingOf(CString(f.value))
      else LastSetting(fields[..|fields| - 1], key)
  }

  /** The last field that gives a key its number, or the default. */
  function LastNumber(fields: seq<Field>, key: Key, default: nat): nat {
    if fields == [] then default else
      var f := fields[|fields| - 1];
      if KeyOf(CString(f.name)) == key then Atoi32(CString(f.value))
      else LastNumber(fields[..|fields| - 1], key, default)
  }

  /** Later fields override earlier ones. */
  lemma {:induction false} LastFieldWins(c: Connection, fields: seq<Field>)
    ensures var d := ApplyFields(c, fields);
            && d.udp == LastSetting(fields, UdpMode).Or(c.udp)
            && d.reverse == LastSetting(fields, ReverseMode).Or(c.reverse)
            && d.len == LastNumber(fields, BlockLength, c.len)
            && d.time == LastNumber(fields, Duration, c.time)
            && d.bandwidth == LastNumber(fields, Bandwidth, c.bandwidth)
    decreases |fields|
  {
    hide CString, KeyOf, SettingOf, Atoi32;
    if fields != [] {
      var n := |fields| - 1;
      assert fields == fields[..n] + [fields[n]];
      ApplyLast(c, fields[..n], fields[n]);
      LastFieldWins(c, fields[..n]);
    }
  }

  predicate IsNumeric(key: Key) { key == Duration || key == BlockLength || key == Bandwidth }

  /** Every number among the fields is an int. */
  predicate IntNumbers(fields: seq<Field>) {
    forall f <- fields :: IsNumeric(KeyOf(CString(f.name))) ==> InInt(CString(f.value))
  }

  lemma PrintedMessage(rx: seq<byte>, fields: seq<Field>, rest: seq<byte>)
    requires fields != [] && AllPrintable(fields) && |rx| >= 4
    requires rx[4..] == [OPEN_BRACE] + Print(fields) + rest
    requires BigEndian32(rx) == 1 + |Print(fields)|
    ensures ParamsReady(rx) && MessageFields(rx) == Parsed(fields, true)
    ensures rx[4 + BigEndian32(rx)..] == rest
  {
    hide BigEndian32, Print, ParseFrom;
    PrintIsLong(fields);
    var n := BigEndian32(rx);
    assert rx[4] == rx[4..][0] == OPEN_BRACE;
    MessageSlices(rx, Print(fields), rest);
    assert Print(fields) + [] == Print(fields);
    RoundTrip(fields, [], []);
    assert [] + fields == fields;
  }

  lemma MessageSlices(rx: seq<byte>, body: seq<byte>, rest: seq<byte>)
    requires |rx| >= 4 && rx[4..] == [OPEN_BRACE] + body + rest
    ensures rx[5..5 + |body|] == body && rx[5 + |body|..] == rest
  {
    assert rx == rx[..4] + [OPEN_BRACE] + body + rest;
  }

  lemma PrintIsLong(fields: seq<Field>)
    requires fields != []
    ensures |Print(fields)| >= 1
  {
  }

  /** The fields ask for what the server can serve: UDP, reverse mode and a short block. */
  predicate Requests(fields: seq<Field>) {
    LastSetting(fields, UdpMode) == Set(true) && LastSetting(fields, ReverseMode) == Set(true)
    && LastNumber(fields, BlockLength, 0) < MAX_BLOCK
  }

  /** A parameter message that is a printed list of fields configures the connection with exactly
      those fields, and is accepted exactly when they ask for UDP, reverse mode and a short block. */
  lemma PrintedParams(c: Connection, fields: seq<Field>, rest: seq<byte>)
    requires fields != [] && AllPrintable(fields) && IntNumbers(fields) && |c.rx| >= 4
    requires c.rx[4..] == [OPEN_BRACE] + Print(fields) + rest
    requires BigEndian32(c.rx) == 1 + |Print(fields)|
    requires c.valid && !c.udp && !c.reverse && c.len == 0
    ensures ParamsReady(c.rx)
    ensures var d := AfterParams(c);
            if Requests(fields) then d.valid && d.socket == c.socket && d.state == CreateStreams && d.rx == rest
                                     && d.len == LastNumber(fields, BlockLength, 0)
            else d == CLEARED
  {
    PrintedMessage(c.rx, fields, rest);
    hide BigEndian32, Print, ParamsReady, MessageFields, ApplyFields, LastSetting, LastNumber;
    FieldsKeepSession(c, fields);
    LastFieldWins(c, fields);
  }

  // ---------------------------------------------------------------- the server

  predicate Configured(state: State) {
    state == CreateStreams || state == TestStart || state == TestRunning || state == ExchangeResults
  }

  /** Between events: an unused entry is clear, and a connection past its parameters has the only
      mode the server can serve. */
  predicate EntryOk(c: Connection) {
    && (!c.valid ==> c == CLEARED)
    && (Configured(c.state) ==> Acceptable(c))
    && (!Configured(c.state) ==> !c.udp && !c.reverse && c.len == 0)
    && |c.rx| <= RX_BUFFER_SIZE
  }

  /** Sequence numbers are 1, 2, 3, ... in the order of the packets, as 32-bit numbers. */
  predicate Numbered(c: Connection, sent: seq<nat>) {
    (!(c.state == TestStart || c.state == TestRunning || c.state == ExchangeResults) ==> sent == [])
    && c.sequence == |sent| % UINT32 && forall k | 0 <= k < |sent| :: sent[k] == (k + 1) % UINT32
  }

  /** A running test reads a byte, so there must be one; and no message length makes a sum wrap. */
  predicate CanHandle(c: Connection, payload: seq<byte>) {
    |c.rx| + |payload| <= RX_BUFFER_SIZE ==>
      (c.state == TestRunning ==> c.rx + payload != []) && LengthsFit(c.(rx := c.rx + payload))
  }

  predicate AwaitsStream(c: Connection) { c.valid && c.state == CreateStreams }

  /** A test is going on. */
  predicate Streams(c: Connection) { c.valid && (c.state == TestStart || c.state == TestRunning) }

  datatype Report = Report(bytes: nat, packets: nat)

  class Server {
    const conns: array<Connection>
    /** Sequence numbers sent in the current session of each entry. */
    ghost var sent: seq<seq<nat>>

    ghost predicate Valid()
      reads this, conns
    {
      |sent| == conns.Length && forall i | 0 <= i < conns.Length :: EntryOk(conns[i]) && Numbered(conns[i], sent[i])
    }

    constructor (maxClients: nat)
      ensures Valid() && fresh(conns) && conns.Length == maxClients
    {
      conns := new Connection[maxClients](_ => CLEARED);
      sent := seq(maxClients, _ => []);
    }

    /** One entry changes; the others, and what they have sent, do not. */
    twostate predicate OnlyEntry(id: nat)
      reads this, conns
    {
      |sent| == old(|sent|) == conns.Length
      && forall j | 0 <= j < conns.Length && j != id :: conns[j] == old(conns[j]) && sent[j] == old(sent[j])
    }

    /** The socket's entry, or -1. */
    method GetConnectionID(socket: nat) returns (id: int)
      ensures id == -1 ==> forall i | 0 <= i < conns.Length :: !(conns[i].valid && conns[i].socket == socket)
      ensures id != -1 ==> 0 <= id < conns.Length && conns[id].valid && conns[id].socket == socket
    {
      for i := 0 to conns.Length
        invariant forall j | 0 <= j < i :: !(conns[j].valid && conns[j].socket == socket)
      {
        if conns[i].valid && conns[i].socket == socket { return i; }
      }
      id := -1;
    }

    method OnConnectionAccepted(socket: nat) returns (id: int)
      requires Valid()
      modifies conns
      ensures Valid()
      ensures id == -1 ==> unchanged(conns)
      ensures id != -1 ==> 0 <= id < conns.Length && !old(conns[id].valid)
                           && conns[id] == CLEARED.(valid := true, socket := socket) && OnlyEntry(id)
    {
      for i := 0 to conns.Length
        invariant unchanged(conns)
      {
        if !conns[i].valid {
          conns[i] := conns[i].(valid := true, socket := socket, state := Start);
          return i;
        }
      }
      id := -1;
    }

    /** Forgets a session: dropped by the server, or closed by the client. */
    method Clear(id: nat)
      requires Valid() && id < conns.Length
      modifies this, conns
      ensures Valid() && conns[id] == CLEARED && sent[id] == [] && OnlyEntry(id)
    {
      conns[id] := CLEARED;
      sent := sent[id := []];
    }

    method OnConnectionClosed(socket: nat) returns (ghost id: int)
      requires Valid()
      modifies this, conns
      ensures Valid()
      ensures id == -1 ==> unchanged(this) && unchanged(conns)
      ensures id != -1 ==> 0 <= id < conns.Length && old(conns[id].valid) && old(conns[id].socket) == socket
                           && conns[id] == CLEARED && OnlyEntry(id)
    {
      var n := GetConnectionID(socket);
      id := n;
      if n >= 0 { Clear(n); }
    }

    method OnRxParamExchange(id: nat) returns (more: bool)
      requires Valid() && id < conns.Length && conns[id].valid && conns[id].state == ParamExchange
      requires LengthFits(conns[id].rx)
      modifies this, conns
      ensures Valid() && OnlyEntry(id) && sent[id] == []
      ensures more == ParamsReady(old(conns[id].rx))
      ensures conns[id] == if more then AfterParams(old(conns[id])) else old(conns[id])
      ensures more ==> |conns[id].rx| < old(|conns[id].rx|)
    {
      var c := conns[id];
      if |c.rx| < 6 { return false; }
      var len := BigEndian32(c.rx);
      if |c.rx| < 4 + len { return false; }
      if c.rx[4] != OPEN_BRACE { return false; }
      var o := Parsed([], false);
      if len > 0 {
        assert c.rx[4..4 + len][1..] == c.rx[5..4 + len];
        o := ParseFields(c.rx[4..4 + len]);
      }
      more := true;
      if o.Dropped? {
        Clear(id);
        return;
      }
      FieldsKeepSession(c, o.fields);
      var d := ApplyFields(c, o.fields).(rx := c.rx[4 + len..], state := CreateStreams);
      if !d.udp || !d.reverse || d.len >= MAX_BLOCK {
        Clear(id);
      } else {
        conns[id] := d;
      }
    }

    method OnRxCookie(id: nat) returns (more: bool)
      requires Valid() && id < conns.Length && conns[id].state == Start
      modifies conns
      ensures Valid() && OnlyEntry(id)
      ensures more == (old(|conns[id].rx|) >= COOKIE_SIZE)
      ensures conns[id] == if more then old(conns[id]).(rx := old(conns[id].rx)[COOKIE_SIZE..], state := ParamExchange)
                           else old(conns[id])
    {
      more := |conns[id].rx| >= COOKIE_SIZE;
      if more {
        conns[id] := conns[id].(rx := conns[id].rx[COOKIE_SIZE..], state := ParamExchange);
      }
    }

    /** The report counts the packets of this session. */
    ghost predicate Reports(id: nat, r: Report)
      requires id < conns.Length && id < |sent|
      reads this, conns
    {
      r.packets == |sent[id]| % UINT32 && r.bytes == r.packets * conns[id].len % UINT32
    }

    /** The client ends the test, and gets the report. */
    method OnRxEnd(id: nat) returns (ended: bool, report: Report)
      requires Valid() && id < conns.Length && conns[id].valid && conns[id].state == TestRunning
      requires conns[id].rx != []
      modifies conns
      ensures Valid() && OnlyEntry(id)
      ensures ended == (old(conns[id].rx)[0] == TEST_END)
      ensures conns[id] == old(conns[id]).(rx := old(conns[id].rx)[1..],
                                           state := if ended then ExchangeResults else TestRunning)
      ensures Reports(id, report)
    {
      var c := conns[id];
      ended := c.rx[0] == TEST_END;
      report := Report(c.sequence * c.len % UINT32, c.sequence);
      conns[id] := c.(rx := c.rx[1..], state := if ended then ExchangeResults else TestRunning);
    }

    ghost predicate Matches(i: nat, socket: nat)
      requires i < conns.Length
      reads conns
    {
      conns[i].valid && conns[i].socket == socket
    }

    /** A segment from a client: buffered, then handled as far as the buffer allows. */
    method OnRxData(socket: nat, payload: seq<byte>) returns (ok: bool, report: Option<Report>, ghost id: int)
      requires Valid()
      requires forall i | 0 <= i < conns.Length && Matches(i, socket) :: CanHandle(conns[i], payload)
      modifies this, conns
      ensures Valid()
      ensures id == -1 ==> unchanged(this) && unchanged(conns)
                           && forall i | 0 <= i < conns.Length :: !Matches(i, socket)
      ensures id != -1 ==> 0 <= id < conns.Length && old(Matches(id, socket)) && OnlyEntry(id)
      ensures id != -1 ==> conns[id] == Deliver(old(conns[id]), payload)
      ensures id != -1 && old(|conns[id].rx|) + |payload| > 256 ==> conns[id] == CLEARED && !ok
      ensures id != -1 && old(|conns[id].rx|) + |payload| <= 256 ==>
                conns[id] == Settle(More(old(conns[id]), payload))
      ensures id != -1 && conns[id].valid ==> sent[id] == old(sent[id])
      ensures report.Some? <==> id != -1 && old(conns[id].state) == TestRunning && conns[id].state == ExchangeResults
      ensures report.Some? ==> Reports(id, report.value)
    {
      var n := GetConnectionID(socket);
      id := n;
      if n < 0 { return true, None, id; }
      var c := conns[n];
      if |c.rx| + |payload| > RX_BUFFER_SIZE {
        Clear(n);
        return false, None, id;
      }
      conns[n] := c.(rx := c.rx + payload);
      ok, report := Handle(n);
    }

    /** The loop of OnRxData. */
    method Handle(id: nat) returns (ok: bool, report: Option<Report>)
      requires Valid() && id < conns.Length
      requires conns[id].state == TestRunning ==> conns[id].rx != [] && conns[id].valid
      requires LengthsFit(conns[id])
      modifies this, conns
      ensures Valid() && OnlyEntry(id) && conns[id] == Settle(old(conns[id]))
      ensures conns[id].valid ==> sent[id] == old(sent[id])
      ensures report.Some? <==> old(conns[id].state) == TestRunning && conns[id].state == ExchangeResults
      ensures report.Some? ==> Reports(id, report.value)
    {
      report := None;
      while true
        invariant Valid() && OnlyEntry(id) && Settle(conns[id]) == Settle(old(conns[id]))
        invariant conns[id].state == TestRunning ==> conns[id].rx != [] && conns[id].valid
        invariant LengthsFit(conns[id])
        invariant conns[id].valid ==> sent[id] == old(sent[id])
        invariant if old(conns[id].state) == TestRunning then conns[id] == old(conns[id])
                  else conns[id].state != TestRunning
        invariant report.None?
        decreases |conns[id].rx|
      {
        var more := false;
        match conns[id].state {
          case Start =>
            more := OnRxCookie(id);
            if !more { return true, None; }
          case ParamExchange =>
            more := OnRxParamExchange(id);
            if !more { return true, None; }
          case CreateStreams => return true, None;
          case TestStart => return false, None;
          case TestRunning =>
            var ended, r := OnRxEnd(id);
            return true, if ended then Some(r) else None;
          case ExchangeResults => return true, None;
        }
      }
    }

    /** A datagram from a client that is waiting for its stream starts the test. `ours` says whether
        the port is the server's, `room` whether the reply could be sent. */
    method OnRxUdpData(ours: bool, fromClient: seq<bool>, sport: nat, room: bool)
      requires Valid() && |fromClient| == conns.Length
      modifies conns
      ensures Valid()
      ensures forall i | 0 <= i < conns.Length ::
                var first := AwaitsStream(old(conns[i])) && fromClient[i]
                             && forall j | 0 <= j < i :: !(AwaitsStream(old(conns[j])) && fromClient[j]);
                conns[i] == if ours && room && first then old(conns[i]).(clientPort := sport, state := TestStart)
                            else old(conns[i])
    {
      if !ours { return; }
      for i := 0 to conns.Length
        invariant unchanged(conns)
        invariant forall j | 0 <= j < i :: !(AwaitsStream(conns[j]) && fromClient[j])
      {
        if !conns[i].valid || conns[i].state != CreateStreams || !fromClient[i] { continue; }
        if !room { return; }
        conns[i] := conns[i].(clientPort := sport, state := TestStart);
        break;
      }
    }

    /** Sends one packet with the next sequence number, if there is room for one. */
    method SendDataOnStream(id: nat, room: bool)
      requires Valid() && id < conns.Length && Streams(conns[id])
      modifies this, conns
      ensures Valid() && OnlyEntry(id)
      ensures sent[id] == if room then old(sent[id]) + [(|old(sent[id])| + 1) % UINT32] else old(sent[id])
      ensures conns[id] == old(conns[id]).(sequence := |sent[id]| % UINT32)
    {
      if !room { return; }
      var seqno := (conns[id].sequence + 1) % UINT32;
      conns[id] := conns[id].(sequence := seqno);
      NextNumber(|sent[id]|);
      sent := sent[id := sent[id] + [seqno]];
    }

    /** One pass over the entries, up to the first unused one. `rooms` says which entries find a free
        transmit buffer. */
    method Iteration(rooms: seq<bool>)
      requires Valid() && |rooms| == conns.Length
      modifies this, conns
      ensures Valid()
      ensures forall i | 0 <= i < conns.Length ::
                && sent[i] == SentAfter(old(conns[..]), i, old(sent)[i], rooms[i])
                && conns[i] == EntryAfter(old(conns[..]), i, |sent[i]|)
    {
      hide EntryOk;
      for i := 0 to conns.Length
        invariant Valid() && |old(sent)| == conns.Length
        invariant forall j | i <= j < conns.Length :: conns[j] == old(conns[..])[j] && sent[j] == old(sent)[j]
        invariant forall j | 0 <= j < i ::
                    && old(conns[..])[j].valid
                    && sent[j] == SentAfter(old(conns[..]), j, old(sent)[j], rooms[j])
                    && conns[j] == EntryAfter(old(conns[..]), j, |sent[j]|)
      {
        if !conns[i].valid { return; }
        Serve(i, rooms[i]);
      }
    }

    /** One entry of the pass. */
    method Serve(i: nat, room: bool)
      requires Valid() && i < conns.Length && conns[i].valid
      modifies this, conns
      ensures Valid() && OnlyEntry(i)
      ensures sent[i] == if Streams(old(conns[i])) && room then old(sent[i]) + [(|old(sent[i])| + 1) % UINT32]
                         else old(sent[i])
      ensures conns[i] == old(conns[i]).(sequence := |sent[i]| % UINT32,
                                         state := if old(conns[i].state) == TestStart then TestRunning
                                                  else old(conns[i].state))
    {
      if conns[i].state == TestStart {
        SendDataOnStream(i, room);
        conns[i] := conns[i].(state := TestRunning);
      } else if conns[i].state == TestRunning {
        SendDataOnStream(i, room);
      }
    }
  }

  /** A pass over the entries gets as far as the first unused one. */
  predicate Reached(entries: seq<Connection>, i: nat)
    requires i < |entries|
  {
    forall j | 0 <= j <= i :: entries[j].valid
  }

  /** What entry `i` has sent after the pass; `room` says whether there was a buffer for a packet. */
  function SentAfter(entries: seq<Connection>, i: nat, sent: seq<nat>, room: bool): seq<nat>
    requires i < |entries|
  {
    if Reached(entries, i) && Streams(entries[i]) && room then sent + [(|sent| + 1) % UINT32] else sent
  }

  function EntryAfter(entries: seq<Connection>, i: nat, packets: nat): Connection
    requires i < |entries|
  {
    var c := entries[i];
    c.(sequence := packets % UINT32,
       state := if Reached(entries, i) && c.state == TestStart then TestRunning else c.state)
  }

  /** With room for a packet, a running test is served exactly if every entry up to it is in use. */
  lemma ServedExactly(entries: seq<Connection>, i: nat, sent: seq<nat>)
    requires i < |entries| && Streams(entries[i])
    ensures |SentAfter(entries, i, sent, true)| == |sent| + 1 <==> forall j | 0 <= j < i :: entries[j].valid
  {
    assert Reached(entries, i) <==> forall j | 0 <= j < i :: entries[j].valid;
  }

  /** Two entries, of which the first was closed: the test of the second gets nothing. */
  lemma StarvedEntry()
    ensures var running := CLEARED.(valid := true, state := TestRunning, udp := true, reverse := true);
            EntryOk(running) && Streams(running) && SentAfter([CLEARED, running], 1, [], true) == []
  {
    var entries := [CLEARED, CLEARED.(valid := true, state := TestRunning, udp := true, reverse := true)];
    assert !entries[0].valid;
    ServedExactly(entries, 1, []);
  }

  lemma NextNumber(n: nat)
    ensures (n % UINT32 + 1) % UINT32 == (n + 1) % UINT32
  {
  }

  /** Everything one segment does to its connection. */
  function Settle(c: Connection): Connection
    decreases |c.rx|
  {
    match c.state
    case Start => if |c.rx| >= COOKIE_SIZE then Settle(c.(rx := c.rx[COOKIE_SIZE..], state := ParamExchange)) else c
    case ParamExchange => if ParamsReady(c.rx) then Settle(AfterParams(c)) else c
    case TestRunning =>
      if c.rx == [] then c
      else c.(rx := c.rx[1..], state := if c.rx[0] == TEST_END then ExchangeResults else TestRunning)
    case _ => c
  }

  // ---------------------------------------------------------------- segments

  /** What a segment does to a connection; one that was dropped is not found any more. */
  function Deliver(c: Connection, segment: seq<byte>): Connection {
    if !c.valid then c
    else if |c.rx| + |segment| > RX_BUFFER_SIZE then CLEARED
    else Settle(c.(rx := c.rx + segment))
  }

  function DeliverAll(c: Connection, segments: seq<seq<byte>>): Connection
    decreases |segments|
  {
    if segments == [] then c else DeliverAll(Deliver(c, segments[0]), segments[1..])
  }

  /** Before the test: the cookie or the parameters are still coming in, or the stream is waited for. */
  predicate SettingUp(c: Connection) {
    c.valid && (c.state == Start || c.state == ParamExchange || c.state == CreateStreams)
  }

  function More(c: Connection, b: seq<byte>): Connection { c.(rx := c.rx + b) }

  lemma ParamsThenMore(c: Connection, b: seq<byte>)
    requires c.valid && c.state == ParamExchange && ParamsReady(c.rx)
    ensures ParamsReady(c.rx + b)
    ensures var d := AfterParams(c);
            && (d == CLEARED || (SettingUp(d) && |d.rx| < |c.rx|))
            && AfterParams(More(c, b)) == if d == CLEARED then CLEARED else More(d, b)
  {
    hide ApplyFields, ParseFrom;
    var n := BigEndian32(c.rx);
    assert BigEndian32(c.rx + b) == n;
    assert (c.rx + b)[4 + n..] == c.rx[4 + n..] + b;
    if n > 0 { assert (c.rx + b)[5..4 + n] == c.rx[5..4 + n]; }
    var o := MessageFields(c.rx);
    assert MessageFields(c.rx + b) == o;
    if o.Parsed? {
      FieldsKeepSession(c, o.fields);
      ApplyIgnoresBuffer(c, c.rx + b, o.fields);
    }
  }

  lemma {:induction false} ApplyIgnoresBuffer(c: Connection, rx: seq<byte>, fields: seq<Field>)
    ensures ApplyFields(c.(rx := rx), fields) == ApplyFields(c, fields).(rx := rx)
    decreases |fields|
  {
    hide CString, KeyOf, SettingOf, Atoi32;
    if fields != [] { ApplyIgnoresBuffer(ApplyField(c, fields[0]), rx, fields[1..]); }
  }

  /** Bytes that come later do what they would have done with the others. */
  lemma {:induction false} SettleThenMore(c: Connection, b: seq<byte>)
    requires SettingUp(c)
    ensures var d := Settle(c);
            && (d == CLEARED || (SettingUp(d) && |d.rx| <= |c.rx|)) && Settle(d) == d
            && Settle(More(c, b)) == if d == CLEARED then CLEARED else Settle(More(d, b))
    decreases |c.rx|
  {
    hide ParamsReady, AfterParams;
    if c.state == Start && |c.rx| >= COOKIE_SIZE {
      assert (c.rx + b)[COOKIE_SIZE..] == c.rx[COOKIE_SIZE..] + b;
      SettleThenMore(c.(rx := c.rx[COOKIE_SIZE..], state := ParamExchange), b);
    } else if c.state == ParamExchange && ParamsReady(c.rx) {
      ParamsThenMore(c, b);
      if AfterParams(c) != CLEARED { SettleThenMore(AfterParams(c), b); }
    }
  }

  /** While a connection is being set up, the cookie and the parameters may be split into segments in
      any way: the connection ends up the same. */
  lemma {:induction false} SegmentsDoNotMatter(c: Connection, segments: seq<seq<byte>>)
    requires SettingUp(c) && Settle(c) == c && |c.rx| + |Concat(segments)| <= RX_BUFFER_SIZE
    ensures DeliverAll(c, segments) == Deliver(c, Concat(segments))
    decreases |segments|
  {
    hide Settle;
    if segments == [] {
      assert More(c, []) == c;
    } else {
      var a, b := segments[0], Concat(segments[1..]);
      SettleThenMore(More(c, a), b);
      assert More(More(c, a), b) == More(c, a + b);
      var d := Deliver(c, a);
      if d == CLEARED {
        ClearedStays(segments[1..]);
      } else {
        SegmentsDoNotMatter(d, segments[1..]);
      }
    }
  }

  /** A client connects, then sends its cookie and its printed parameters in any segments. */
  lemma SetupInSegments(socket: nat, segments: seq<seq<byte>>, cookie: seq<byte>, message: seq<byte>,
                        fields: seq<Field>)
    requires Concat(segments) == cookie + message && |cookie| == COOKIE_SIZE && |cookie + message| <= RX_BUFFER_SIZE
    requires fields != [] && AllPrintable(fields) && IntNumbers(fields)
    requires |message| >= 4 && BigEndian32(message) == 1 + |Print(fields)|
    requires message[4..] == [OPEN_BRACE] + Print(fields)
    ensures var d := DeliverAll(CLEARED.(valid := true, socket := socket), segments);
            if Requests(fields) then d.valid && d.socket == socket && d.state == CreateStreams && d.rx == []
                                     && d.len == LastNumber(fields, BlockLength, 0)
            else d == CLEARED
  {
    hide BigEndian32, Print, IntNumbers, AllPrintable, LastNumber, Requests, AfterParams, ParamsReady;
    var c := CLEARED.(valid := true, socket := socket);
    SegmentsDoNotMatter(c, segments);
    assert c.rx + (cookie + message) == cookie + message;
    assert (cookie + message)[COOKIE_SIZE..] == message;
    var p := c.(rx := message, state := ParamExchange);
    PrintedParams(p, fields, []);
    assert Settle(p) == Settle(AfterParams(p));
  }

  lemma {:induction false} ClearedStays(segments: seq<seq<byte>>)
    ensures DeliverAll(CLEARED, segments) == CLEARED
    decreases |segments|
  {
    if segments != [] { ClearedStays(segments[1..]); }
  }

  /** While a test is running they do matter, because one byte is looked at per segment: the client ends
      the test exactly when TEST_END is among the first bytes, as many as there are segments. */
  lemma {:induction false} TestEndsExactly(c: Connection, segments: seq<seq<byte>>)
    requires c.valid && c.state == TestRunning && AllNonEmpty(segments)
    requires |c.rx| + |Concat(segments)| <= RX_BUFFER_SIZE
    ensures |segments| <= |c.rx + Concat(segments)|
    ensures DeliverAll(c, segments).state == ExchangeResults
            <==> TEST_END in (c.rx + Concat(segments))[..|segments|]
    ensures DeliverAll(c, segments).state in {TestRunning, ExchangeResults}
    decreases |segments|
  {
    if segments != [] {
      var n, rest := |segments|, segments[1..];
      var stream := c.rx + Concat(segments);
      assert stream == (c.rx + segments[0]) + Concat(rest);
      var d := Deliver(c, segments[0]);
      assert d.rx + Concat(rest) == stream[1..];
      if stream[0] == TEST_END {
        ResultsStay(d, rest);
        ConcatGrows(rest);
        assert stream[..n][0] == TEST_END;
      } else {
        TestEndsExactly(d, rest);
        assert stream[..n] == [stream[0]] + stream[1..][..n - 1];
      }
    }
  }

  predicate AllNonEmpty(segments: seq<seq<byte>>) {
    forall k | 0 <= k < |segments| :: segments[k] != []
  }

  lemma {:induction false} ConcatGrows(segments: seq<seq<byte>>)
    requires AllNonEmpty(segments)
    ensures |Concat(segments)| >= |segments|
  {
    if segments != [] { ConcatGrows(segments[1..]); }
  }

  lemma {:induction false} ResultsStay(c: Connection, segments: seq<seq<byte>>)
    requires c.valid && c.state == ExchangeResults && |c.rx| + |Concat(segments)| <= RX_BUFFER_SIZE
    ensures DeliverAll(c, segments).state == ExchangeResults
    decreases |segments|
  {
    if segments != [] { ResultsStay(Deliver(c, segments[0]), segments[1..]); }
  }

  /** TEST_END behind another byte is missed in one segment, and seen in two. */
  lemma OneBytePerSegment(c: Connection)
    requires c.valid && c.state == TestRunning && c.rx == []
    ensures DeliverAll(c, [[0, 4]]).state == TestRunning
    ensures DeliverAll(c, [[0], [4]]).state == ExchangeResults
  {
    var both := [0, TEST_END];
    ConcatOne(both);
    ConcatOne([0]);
    ConcatAppend([[0]], [TEST_END]);
    assert [[0]] + [[TEST_END]] == [[0], [TEST_END]] && [0] + [TEST_END] == both;
    assert c.rx + both == both && both[..1] == [0] && both[..2] == both && both[1] == TEST_END;
    TestEndsExactly(c, [both]);
    TestEndsExactly(c, [[0], [TEST_END]]);
  }
}
