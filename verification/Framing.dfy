/** What a .bit file is, written as a grammar, and the proof that the parser accepts exactly that. */
module Framing {
  import opened Bytes
  import opened BitstreamParser

  // ---------------------------------------------------------------- configuration packets

  datatype Packet = Packet(head: seq<byte>, body: seq<byte>) {
    predicate WellFormed() {
      |head| == 4
      && (|| (PacketType(head) == 1 && |body| == 4 * ShortLen(head))
          || (PacketType(head) == 2 && |body| == 4 * LongLen(head)))
    }

    function Encode(): seq<byte> { head + body }

    /** A one-word type 1 packet, not a NOP, that writes DESYNC to CMD. */
    predicate Desync()
      requires WellFormed()
    {
      PacketType(head) == 1 && Opcode(head) != 0 && ShortLen(head) == 1 && RegAddr(head) == REG_CMD
      && BigEndian32(body) % 0x20 == CMD_DESYNC
    }
  }

  predicate Ordinary(packets: seq<Packet>) {
    forall p <- packets :: p.WellFormed() && !p.Desync()
  }

  function EncodeAll(packets: seq<Packet>): seq<byte> {
    if packets == [] then [] else packets[0].Encode() + EncodeAll(packets[1..])
  }

  function InPackets(rx: seq<byte>, out: seq<byte>): Parser { Parser(Bitstream, 0, rx, out) }

  /** A whole type 1 packet is one step. */
  lemma ShortStep(device: seq<byte>, p: Packet, rest: seq<byte>, out: seq<byte>)
    requires p.WellFormed() && PacketType(p.head) == 1
    ensures var s := InPackets(p.Encode() + rest, out);
            && Ready(s)
            && Step(device, s)
               == Parser(if p.Desync() then Done else Bitstream, 0, rest, out + p.Encode())
  {
    var n := |p.Encode()|;
    HeadFields(p, rest);
    assert (p.Encode() + rest)[..n] == p.Encode() && (p.Encode() + rest)[n..] == rest;
  }

  /** The header of a type 2 packet is one step, its body a big write. */
  lemma LongStep(device: seq<byte>, p: Packet, rest: seq<byte>, out: seq<byte>)
    requires p.WellFormed() && PacketType(p.head) == 2
    ensures var s := InPackets(p.Encode() + rest, out);
            && Ready(s)
            && Step(device, s) == Parser(BigWrite, LongLen(p.head), p.body + rest, out + p.head)
  {
    HeadFields(p, rest);
    assert (p.Encode() + rest)[..4] == p.head && (p.Encode() + rest)[4..] == p.body + rest;
  }

  lemma LongBody(device: seq<byte>, k: nat, body: seq<byte>, rest: seq<byte>, out: seq<byte>)
    requires |body| == 4 * k && |rest| >= 4
    ensures Run(device, Parser(BigWrite, k, body + rest, out)) == Run(device, InPackets(rest, out + body))
  {
    hide Run;
    var t := Parser(BigWrite, k, body + rest, out);
    RunBigWords(device, t, k);
    assert t.rx[..4 * k] == body && t.rx[4 * k..] == rest;
    if k == 0 {
      RunStep(device, t);
      assert Step(device, t) == InPackets(rest, out + body);
    }
  }

  /** One well-formed packet at a packet boundary is consumed whole, whatever its body holds. */
  lemma OnePacket(device: seq<byte>, p: Packet, rest: seq<byte>, out: seq<byte>)
    requires p.WellFormed() && !p.Desync() && |rest| >= 4
    ensures Run(device, InPackets(p.Encode() + rest, out)) == Run(device, InPackets(rest, out + p.Encode()))
  {
    hide Run, Step, Ready;
    if PacketType(p.head) == 1 {
      ShortStep(device, p, rest, out);
      RunStep(device, InPackets(p.Encode() + rest, out));
    } else {
      LongStep(device, p, rest, out);
      RunStep(device, InPackets(p.Encode() + rest, out));
      LongBody(device, LongLen(p.head), p.body, rest, out + p.head);
      assert out + p.head + p.body == out + p.Encode();
    }
  }

  lemma DesyncPacket(device: seq<byte>, p: Packet, rest: seq<byte>, out: seq<byte>)
    requires p.WellFormed() && p.Desync()
    ensures Run(device, InPackets(p.Encode() + rest, out)) == Parser(Done, 0, [], out + p.Encode())
  {
    ShortStep(device, p, rest, out);
  }

  lemma HeadFields(p: Packet, rest: seq<byte>)
    requires p.WellFormed()
    ensures var rx := p.Encode() + rest;
            PacketType(rx) == PacketType(p.head) && Opcode(rx) == Opcode(p.head)
            && RegAddr(rx) == RegAddr(p.head) && ShortLen(rx) == ShortLen(p.head)
            && LongLen(rx) == LongLen(p.head)
    ensures PacketType(p.head) == 1 ==> (EndsImage(p.Encode() + rest) <==> p.Desync())
  {
    var rx := p.Encode() + rest;
    assert BigEndian32(rx) == BigEndian32(p.head);
    if |p.body| >= 4 {
      assert BigEndian32(rx[4..]) == BigEndian32(p.body);
    }
  }

  lemma {:induction false} ManyPackets(device: seq<byte>, packets: seq<Packet>, rest: seq<byte>, out: seq<byte>)
    requires Ordinary(packets) && |rest| >= 4
    ensures Run(device, InPackets(EncodeAll(packets) + rest, out))
            == Run(device, InPackets(rest, out + EncodeAll(packets)))
  {
    hide Run, Step, Ready;
    if packets == [] {
      assert EncodeAll(packets) + rest == rest && out + EncodeAll(packets) == out;
    } else {
      var tail := EncodeAll(packets[1..]);
      assert EncodeAll(packets) + rest == packets[0].Encode() + (tail + rest);
      OnePacket(device, packets[0], tail + rest, out);
      ManyPackets(device, packets[1..], rest, out + packets[0].Encode());
      assert out + packets[0].Encode() + tail == out + EncodeAll(packets);
    }
  }

  function PacketSize(rx: seq<byte>): nat
    requires |rx| >= 4
  {
    if PacketType(rx) == 1 then ShortSize(rx) else 4 * (LongLen(rx) + 1)
  }

  /** The packet that starts `rx`, when all of it is there. */
  function FirstPacket(rx: seq<byte>): Packet
    requires |rx| >= 4 && |rx| >= PacketSize(rx)
  {
    Packet(rx[..4], rx[4..PacketSize(rx)])
  }

  lemma FirstPacketFits(rx: seq<byte>)
    requires |rx| >= 4 && PacketType(rx) in {1, 2} && |rx| >= PacketSize(rx)
    ensures FirstPacket(rx).WellFormed() && FirstPacket(rx).Encode() == rx[..PacketSize(rx)]
    ensures rx == FirstPacket(rx).Encode() + rx[PacketSize(rx)..]
  {
    assert rx[..4] + rx[4..] == rx;
    FieldsMonotone(rx[..4], rx[4..]);
  }

  /** Where a run of ordinary packets comes to an end. */
  datatype Stop = Short | Invalid | Partial | Last

  predicate StopsAt(rx: seq<byte>, stop: Stop) {
    match stop
    case Short => |rx| < 4
    case Invalid => |rx| >= 4 && PacketType(rx) !in {1, 2}
    case Partial => |rx| >= 4 && PacketType(rx) in {1, 2} && |rx| < PacketSize(rx)
    case Last => |rx| >= 4 && PacketType(rx) in {1, 2} && |rx| >= PacketSize(rx)
                 && FirstPacket(rx).WellFormed() && FirstPacket(rx).Desync()
  }

  lemma {:induction false} SplitPackets(rx: seq<byte>) returns (packets: seq<Packet>, rest: seq<byte>, stop: Stop)
    ensures Ordinary(packets) && rx == EncodeAll(packets) + rest && StopsAt(rest, stop)
    decreases |rx|
  {
    hide BigEndian32, PacketType, ShortLen, LongLen;
    packets, rest := [], rx;
    if |rx| < 4 {
      stop := Short;
    } else if PacketType(rx) !in {1, 2} {
      stop := Invalid;
    } else if |rx| < PacketSize(rx) {
      stop := Partial;
    } else {
      FirstPacketFits(rx);
      var p := FirstPacket(rx);
      if p.Desync() {
        stop := Last;
      } else {
        packets, rest, stop := SplitPackets(rx[PacketSize(rx)..]);
        packets := [p] + packets;
      }
    }
  }

  /** With less than a word left, the parser waits for more. */
  lemma {:induction false} PacketsThenShort(device: seq<byte>, packets: seq<Packet>, rest: seq<byte>, out: seq<byte>)
    requires Ordinary(packets) && |rest| < 4
    ensures !Terminal(Run(device, InPackets(EncodeAll(packets) + rest, out)).phase)
  {
    hide Run, Step, Ready;
    if packets == [] {
      assert EncodeAll(packets) + rest == rest;
      Waits(device, InPackets(rest, out));
    } else {
      var p, tail := packets[0], EncodeAll(packets[1..]) + rest;
      assert EncodeAll(packets) + rest == p.Encode() + tail;
      if |tail| >= 4 {
        OnePacket(device, p, tail, out);
        PacketsThenShort(device, packets[1..], rest, out + p.Encode());
      } else {
        OnePacketWaits(device, p, tail, out);
      }
    }
  }

  lemma Waits(device: seq<byte>, p: Parser)
    requires |p.rx| < 4 && (p.phase == Bitstream || p.phase == BigWrite)
    ensures !Ready(p) && Run(device, p) == p
  {
  }

  lemma OnePacketWaits(device: seq<byte>, p: Packet, rest: seq<byte>, out: seq<byte>)
    requires p.WellFormed() && !p.Desync() && |rest| < 4
    ensures !Terminal(Run(device, InPackets(p.Encode() + rest, out)).phase)
  {
    hide Run, Step, Ready;
    RunStepIfReady(device, InPackets(p.Encode() + rest, out));
    if PacketType(p.head) == 1 {
      ShortStep(device, p, rest, out);
      Waits(device, InPackets(rest, out + p.Encode()));
    } else {
      LongStep(device, p, rest, out);
      var t := Parser(BigWrite, LongLen(p.head), p.body + rest, out + p.head);
      RunBigWords(device, t, LongLen(p.head));
      Waits(device, BigWords(t, LongLen(p.head)));
    }
  }

  lemma RunStepIfReady(device: seq<byte>, p: Parser)
    ensures Ready(p) ==> Run(device, p) == Run(device, Step(device, p))
  {
  }

  /** An unfinished packet is waited for, in whichever state its type leads to. */
  lemma PartialWaits(device: seq<byte>, rx: seq<byte>, out: seq<byte>)
    requires StopsAt(rx, Partial)
    ensures !Terminal(Run(device, InPackets(rx, out)).phase)
  {
    hide Run;
    var s := InPackets(rx, out);
    if Ready(s) {
      RunStep(device, s);
      var t := Step(device, s);
      var k := |t.rx| / 4;
      assert k < t.big;
      RunBigWords(device, t, k);
      Waits(device, BigWords(t, k));
    } else {
      RunStops(device, s);
    }
  }

  lemma InvalidFails(device: seq<byte>, rx: seq<byte>, out: seq<byte>)
    requires StopsAt(rx, Invalid)
    ensures Run(device, InPackets(rx, out)) == Parser(Failed, 0, [], out)
  {
    RunStep(device, InPackets(rx, out));
  }

  /** What becomes of the packets depends only on where they stop. */
  lemma PacketsOutcome(device: seq<byte>, packets: seq<Packet>, rest: seq<byte>, stop: Stop, out: seq<byte>)
    requires Ordinary(packets) && StopsAt(rest, stop)
    ensures var q := Run(device, InPackets(EncodeAll(packets) + rest, out));
            && (q.phase == Done <==> stop == Last)
            && (q.phase == Failed <==> stop == Invalid)
  {
    hide Run, Step, Ready;
    match stop {
      case Short => PacketsThenShort(device, packets, rest, out);
      case Invalid =>
        ManyPackets(device, packets, rest, out);
        InvalidFails(device, rest, out + EncodeAll(packets));
      case Partial =>
        ManyPackets(device, packets, rest, out);
        PartialWaits(device, rest, out + EncodeAll(packets));
      case Last =>
        ManyPackets(device, packets, rest, out);
        FirstPacketFits(rest);
        DesyncPacket(device, FirstPacket(rest), rest[PacketSize(rest)..], out + EncodeAll(packets));
    }
  }

  // ---------------------------------------------------------------- padding and sync word

  /** The sync word first occurs in `rx` at `k`, with at least one byte behind it. */
  predicate SyncFirstAt(rx: seq<byte>, k: nat) {
    SyncAt(rx, k) && forall j | 0 <= j < k :: !SyncAt(rx, j)
  }

  predicate SyncAt(rx: seq<byte>, k: nat) { k + 4 < |rx| && rx[k..k + 4] == SYNC_WORD }

  function Waiting(rx: seq<byte>, out: seq<byte>): Parser { Parser(SyncWait, 0, rx, out) }

  lemma {:induction false} SyncFound(device: seq<byte>, rx: seq<byte>, k: nat, out: seq<byte>)
    requires SyncFirstAt(rx, k)
    ensures Run(device, Waiting(rx, out)) == Run(device, InPackets(rx[k + 4..], out + rx[..k + 4]))
    decreases k
  {
    hide Run;
    assert rx[0..4] == rx[..4];
    RunStep(device, Waiting(rx, out));
    if k > 0 {
      assert !SyncAt(rx, 0);
      SyncShift(rx, k);
      SyncFound(device, rx[1..], k - 1, out + rx[..1]);
      assert rx[1..][k + 3..] == rx[k + 4..];
      assert out + rx[..1] + rx[1..][..k + 3] == out + rx[..k + 4];
    }
  }

  lemma SyncShift(rx: seq<byte>, k: nat)
    requires k > 0 && |rx| > 4 && !SyncAt(rx, 0)
    ensures SyncFirstAt(rx, k) <==> SyncFirstAt(rx[1..], k - 1)
  {
    forall j: nat | j + 5 < |rx|
      ensures SyncAt(rx[1..], j) <==> SyncAt(rx, j + 1)
    {
      assert rx[1..][j..j + 4] == rx[j + 1..j + 5];
    }
    if SyncFirstAt(rx[1..], k - 1) {
      forall j | 0 <= j < k ensures !SyncAt(rx, j) {
        if j > 0 { assert !SyncAt(rx[1..], j - 1); }
      }
    }
    if SyncFirstAt(rx, k) {
      forall j | 0 <= j < k - 1 ensures !SyncAt(rx[1..], j) {
        assert !SyncAt(rx, j + 1);
      }
    }
  }

  /** Either the sync word is found, or the parser is left waiting on the last four bytes. */
  lemma {:induction false} SyncOrWait(device: seq<byte>, rx: seq<byte>, out: seq<byte>) returns (k: nat)
    ensures SyncFirstAt(rx, k) || Run(device, Waiting(rx, out)).phase == SyncWait
    decreases |rx|
  {
    k := 0;
    if |rx| > 4 {
      assert rx[0..4] == rx[..4];
      if rx[..4] != SYNC_WORD {
        k := SyncOrWait(device, rx[1..], out + rx[..1]);
        SyncShift(rx, k + 1);
        k := if SyncFirstAt(rx[1..], k) then k + 1 else 0;
      }
    }
  }

  // ---------------------------------------------------------------- header

  /** A header record other than the start record. `mark` is the byte the format leaves unused. */
  datatype Record = Record(kind: byte, mark: byte, payload: seq<byte>) {
    predicate Accepted(device: seq<byte>) {
      kind != RECORD_E && |payload| < 256 && (kind == RECORD_B ==> CString(payload) == device)
    }

    function Encode(): seq<byte>
      requires |payload| < 256
    {
      [kind, mark, |payload|] + payload
    }
  }

  predicate AllAccepted(device: seq<byte>, records: seq<Record>) {
    forall r <- records :: r.Accepted(device)
  }

  function EncodeRecords(device: seq<byte>, records: seq<Record>): seq<byte>
    requires AllAccepted(device, records)
  {
    if records == [] then [] else
      assert records[0].Accepted(device);
      records[0].Encode() + EncodeRecords(device, records[1..])
  }

  predicate StartRecord(s: seq<byte>) { |s| == 5 && s[0] == RECORD_E }

  /** Magic number, records for this device, and the five bytes of the start record. */
  ghost predicate IsHeader(device: seq<byte>, h: seq<byte>) {
    exists records, start ::
      AllAccepted(device, records) && StartRecord(start)
      && h == MAGIC + (EncodeRecords(device, records) + start)
  }

  function InRecords(rx: seq<byte>): Parser { Parser(ReadRecords, 0, rx, []) }

  lemma RecordStep(device: seq<byte>, r: Record, rest: seq<byte>)
    requires r.Accepted(device)
    ensures Run(device, InRecords(r.Encode() + rest)) == Run(device, InRecords(rest))
  {
    hide Run;
    var rx := r.Encode() + rest;
    var n := 3 + |r.payload|;
    assert rx[n..] == rest && rx[3..n] == r.payload;
    RunStep(device, InRecords(rx));
  }

  lemma StartStep(device: seq<byte>, start: seq<byte>, rest: seq<byte>)
    requires StartRecord(start)
    ensures Run(device, InRecords(start + rest)) == Run(device, Waiting(rest, []))
  {
    hide Run;
    assert (start + rest)[5..] == rest;
    RunStep(device, InRecords(start + rest));
  }

  lemma {:induction false} RecordsAreSkipped(device: seq<byte>, records: seq<Record>, rest: seq<byte>)
    requires AllAccepted(device, records)
    ensures Run(device, InRecords(EncodeRecords(device, records) + rest)) == Run(device, InRecords(rest))
  {
    hide Run, Step, Ready;
    if records == [] {
      assert EncodeRecords(device, records) + rest == rest;
    } else {
      var r, tail := records[0], EncodeRecords(device, records[1..]) + rest;
      assert r.Accepted(device);
      assert EncodeRecords(device, records) + rest == r.Encode() + tail;
      RecordStep(device, r, tail);
      RecordsAreSkipped(device, records[1..], rest);
    }
  }

  lemma MagicStep(device: seq<byte>, rx: seq<byte>)
    ensures Parse(device, MAGIC + rx) == Run(device, InRecords(rx))
  {
    hide Run;
    var s := More(START, MAGIC + rx);
    assert s.rx == MAGIC + rx;
    assert s.rx[..13] == MAGIC && s.rx[13..] == rx;
    RunStep(device, s);
  }

  lemma HeaderIsSkipped(device: seq<byte>, h: seq<byte>, rest: seq<byte>)
    requires IsHeader(device, h)
    ensures Parse(device, h + rest) == Run(device, Waiting(rest, []))
  {
    hide Run, Step, Ready;
    var records, start :| AllAccepted(device, records) && StartRecord(start)
                          && h == MAGIC + (EncodeRecords(device, records) + start);
    assert h + rest == MAGIC + (EncodeRecords(device, records) + (start + rest));
    MagicStep(device, EncodeRecords(device, records) + (start + rest));
    RecordsAreSkipped(device, records, start + rest);
    StartStep(device, start, rest);
  }

  predicate InBody(phase: Phase) { phase == SyncWait || phase == Bitstream || phase == BigWrite }

  /** Where reading records comes to an end: input is missing, or it is the start record,
      or a record for another device. */
  predicate RecordsEnd(device: seq<byte>, rx: seq<byte>) {
    !Ready(InRecords(rx)) || rx[0] == RECORD_E || WrongDevice(device, rx)
  }

  lemma {:induction false} SplitRecords(device: seq<byte>, rx: seq<byte>)
    returns (records: seq<Record>, rest: seq<byte>)
    ensures AllAccepted(device, records) && rx == EncodeRecords(device, records) + rest
    ensures RecordsEnd(device, rest)
    decreases |rx|
  {
    if RecordsEnd(device, rx) {
      records, rest := [], rx;
    } else {
      var n := RecordSize(rx);
      var r := Record(rx[0], rx[1], rx[3..n]);
      var others;
      others, rest := SplitRecords(device, rx[n..]);
      records := [r] + others;
      RecordsCons(device, r, others);
      assert rx == r.Encode() + rx[n..];
    }
  }

  lemma RecordsCons(device: seq<byte>, r: Record, others: seq<Record>)
    requires r.Accepted(device) && AllAccepted(device, others)
    ensures AllAccepted(device, [r] + others)
    ensures EncodeRecords(device, [r] + others) == r.Encode() + EncodeRecords(device, others)
  {
    assert ([r] + others)[1..] == others;
  }

  /** A stream either lacks the magic number, or parses like what follows its accepted records. */
  lemma SplitHeader(device: seq<byte>, s: seq<byte>) returns (records: seq<Record>, rest: seq<byte>)
    requires MAGIC <= s
    ensures AllAccepted(device, records) && s == MAGIC + (EncodeRecords(device, records) + rest)
    ensures RecordsEnd(device, rest) && Parse(device, s) == Run(device, InRecords(rest))
  {
    hide Run, Step, Ready;
    assert s == MAGIC + s[13..];
    MagicStep(device, s[13..]);
    records, rest := SplitRecords(device, s[13..]);
    RecordsAreSkipped(device, records, rest);
  }

  lemma NoMagic(device: seq<byte>, s: seq<byte>)
    requires !(MAGIC <= s)
    ensures var q := Parse(device, s); q.out == [] && (q.phase == ReadBitHdr || q.phase == Failed)
  {
    var p := More(START, s);
    assert p.rx == s;
    if |s| >= 13 {
      assert s[..13] != MAGIC;
      RunStep(device, p);
    }
  }

  /** Reading records ended: the parse has not reached the body unless this is the start record. */
  lemma AtRecordsEnd(device: seq<byte>, rest: seq<byte>)
    requires RecordsEnd(device, rest)
    requires !(|rest| >= 5 && rest[0] == RECORD_E)
    ensures var q := Run(device, InRecords(rest));
            q.out == [] && (q == InRecords(rest) || q.phase == Failed)
  {
    if Ready(InRecords(rest)) {
      RunStep(device, InRecords(rest));
    }
  }

  lemma HeaderOrNothing(device: seq<byte>, s: seq<byte>) returns (h: seq<byte>, rest: seq<byte>)
    ensures s == h + rest
    ensures IsHeader(device, h)
            || (Parse(device, s).out == [] && Parse(device, s).phase in {ReadBitHdr, ReadRecords, Failed})
  {
    hide Run;
    h, rest := [], s;
    if MAGIC <= s {
      var records, r := SplitHeader(device, s);
      if |r| >= 5 && r[0] == RECORD_E {
        h, rest := MAGIC + (EncodeRecords(device, records) + r[..5]), r[5..];
        assert s == h + rest;
        assert StartRecord(r[..5]);
      } else {
        AtRecordsEnd(device, r);
      }
    } else {
      NoMagic(device, s);
    }
  }

  /** The stream stops at the third or fourth byte of the start record: the updater would
      remove five bytes while only that many are there. */
  lemma TornExactly(device: seq<byte>, s: seq<byte>)
    ensures TornRecord(Parse(device, s)) <==>
            exists records, part :: AllAccepted(device, records) && TornPart(part)
                                    && s == MAGIC + (EncodeRecords(device, records) + part)
  {
    hide Run;
    forall records, part | AllAccepted(device, records) && TornPart(part)
                           && s == MAGIC + (EncodeRecords(device, records) + part)
      ensures TornRecord(Parse(device, s))
    {
      MagicStep(device, EncodeRecords(device, records) + part);
      RecordsAreSkipped(device, records, part);
      RunStops(device, InRecords(part));
    }
    if TornRecord(Parse(device, s)) {
      if !(MAGIC <= s) { NoMagic(device, s); }
      var records, rest := SplitHeader(device, s);
      if |rest| >= 5 && rest[0] == RECORD_E {
        assert rest == rest[..5] + rest[5..];
        StartStep(device, rest[..5], rest[5..]);
        BodyConserves(device, Waiting(rest[5..], []));
      } else {
        AtRecordsEnd(device, rest);
        assert TornPart(rest);
        assert s == MAGIC + (EncodeRecords(device, records) + rest);
      }
    }
  }

  /** The magic number and three bytes of a start record. */
  lemma TornAtOnce(device: seq<byte>)
    ensures TornRecord(Parse(device, MAGIC + [RECORD_E, 0, 0]))
  {
    var part := [RECORD_E, 0, 0];
    assert EncodeRecords(device, []) + part == part;
    assert AllAccepted(device, []) && TornPart(part);
    TornExactly(device, MAGIC + part);
  }

  predicate TornPart(part: seq<byte>) { 3 <= |part| < 5 && part[0] == RECORD_E }

  // ---------------------------------------------------------------- conservation

  /** In the body, no byte is dropped, repeated or reordered. */
  lemma {:induction false} BodyConserves(device: seq<byte>, p: Parser)
    requires InBody(p.phase)
    ensures var q := Run(device, p);
            && (InBody(q.phase) || Terminal(q.phase))
            && q.out <= p.out + p.rx
            && (InBody(q.phase) ==> q.out + q.rx == p.out + p.rx)
    decreases |p.rx|, Rank(p.phase)
  {
    if Ready(p) {
      var q := Step(device, p);
      assert q.out + q.rx == p.out + p.rx;
      if InBody(q.phase) {
        BodyConserves(device, q);
      }
    }
  }

  /** While the body is being read, the bytes received after the header are exactly
      the bytes emitted followed by the bytes still waiting. */
  lemma StreamConserved(device: seq<byte>, s: seq<byte>) returns (h: seq<byte>)
    requires InBody(Parse(device, s).phase)
    ensures IsHeader(device, h)
    ensures s == h + (Parse(device, s).out + Parse(device, s).rx)
  {
    var rest;
    hide Run;
    h, rest := HeaderOrNothing(device, s);
    HeaderIsSkipped(device, h, rest);
    BodyConserves(device, Waiting(rest, []));
    assert [] + rest == rest;
  }

  // ---------------------------------------------------------------- whole files

  datatype Image = Image(header: seq<byte>, padding: seq<byte>, packets: seq<Packet>, last: Packet, tail: seq<byte>) {
    /** What belongs in flash: everything after the header up to the DESYNC command. */
    function Flashed(): seq<byte> { padding + SYNC_WORD + (EncodeAll(packets) + last.Encode()) }

    ghost predicate DescribesFile(device: seq<byte>, s: seq<byte>) {
      && IsHeader(device, header)
      && Ordinary(packets) && last.WellFormed() && last.Desync()
      && SyncFirstAt(Flashed() + tail, |padding|)
      && s == header + (Flashed() + tail)
    }
  }

  /** A file of this shape is parsed to the end, and its image is what is emitted. */
  lemma ImageIsDone(device: seq<byte>, s: seq<byte>, f: Image)
    requires f.DescribesFile(device, s)
    ensures Parse(device, s) == Parser(Done, 0, [], f.Flashed())
  {
    hide Run;
    var k := |f.padding|;
    var rest := f.Flashed() + f.tail;
    var pre := f.padding + SYNC_WORD;
    HeaderIsSkipped(device, f.header, rest);
    SyncFound(device, rest, k, []);
    assert [] + rest[..k + 4] == pre;
    assert rest[k + 4..] == EncodeAll(f.packets) + (f.last.Encode() + f.tail);
    ManyPackets(device, f.packets, f.last.Encode() + f.tail, pre);
    DesyncPacket(device, f.last, f.tail, pre + EncodeAll(f.packets));
    assert pre + EncodeAll(f.packets) + f.last.Encode() == f.Flashed();
  }

  /** A stream whose header is complete: what follows it, up to where the packets stop. */
  lemma BodyOutcome(device: seq<byte>, h: seq<byte>, rest: seq<byte>)
    returns (k: nat, packets: seq<Packet>, tail: seq<byte>, stop: Stop)
    requires IsHeader(device, h)
    ensures var q := Parse(device, h + rest);
            if SyncFirstAt(rest, k) then
              && Ordinary(packets) && StopsAt(tail, stop) && rest[k + 4..] == EncodeAll(packets) + tail
              && (q.phase == Done <==> stop == Last) && (q.phase == Failed <==> stop == Invalid)
            else q.phase == SyncWait
  {
    hide Run;
    HeaderIsSkipped(device, h, rest);
    packets, tail, stop := [], [], Short;
    k := SyncOrWait(device, rest, []);
    if SyncFirstAt(rest, k) {
      SyncFound(device, rest, k, []);
      packets, tail, stop := SplitPackets(rest[k + 4..]);
      PacketsOutcome(device, packets, tail, stop, [] + rest[..k + 4]);
    }
  }

  /** Only a file of this shape is. */
  lemma DoneIsImage(device: seq<byte>, s: seq<byte>) returns (f: Image)
    requires Parse(device, s).phase == Done
    ensures f.DescribesFile(device, s)
  {
    hide Run;
    var h, rest := HeaderOrNothing(device, s);
    var k, packets, tail, stop := BodyOutcome(device, h, rest);
    FirstPacketFits(tail);
    f := Image(h, rest[..k], packets, FirstPacket(tail), tail[PacketSize(tail)..]);
    assert rest == rest[..k] + rest[k..k + 4] + rest[k + 4..];
    assert rest == f.Flashed() + f.tail;
  }

  /** Done is reached exactly on such files: data inside packet bodies is never read as a command. */
  lemma DoneExactly(device: seq<byte>, s: seq<byte>)
    ensures Parse(device, s).phase == Done <==> exists f: Image :: f.DescribesFile(device, s)
  {
    if Parse(device, s).phase == Done {
      var f := DoneIsImage(device, s);
    }
    forall f: Image | f.DescribesFile(device, s)
      ensures Parse(device, s).phase == Done
    {
      ImageIsDone(device, s, f);
    }
  }

  // ---------------------------------------------------------------- rejection

  /** The three reasons to reject a file. */
  datatype Reject =
    | BadMagic
    | ForeignDevice(before: seq<Record>, named: Record, after: seq<byte>)
    | BadPacket(header: seq<byte>, padding: seq<byte>, packets: seq<Packet>, rest: seq<byte>)
  {
    ghost predicate Explains(device: seq<byte>, s: seq<byte>) {
      match this
      case BadMagic => |s| >= 13 && !(MAGIC <= s)
      case ForeignDevice(before, named, after) =>
        && AllAccepted(device, before)
        && named.kind == RECORD_B && |named.payload| < 256 && CString(named.payload) != device
        && s == MAGIC + (EncodeRecords(device, before) + (named.Encode() + after))
      case BadPacket(header, padding, packets, rest) =>
        && IsHeader(device, header)
        && Ordinary(packets) && StopsAt(rest, Invalid)
        && SyncFirstAt(padding + SYNC_WORD + (EncodeAll(packets) + rest), |padding|)
        && s == header + (padding + SYNC_WORD + (EncodeAll(packets) + rest))
    }
  }

  lemma ForeignFails(device: seq<byte>, r: Record, after: seq<byte>)
    requires r.kind == RECORD_B && |r.payload| < 256 && CString(r.payload) != device
    ensures Run(device, InRecords(r.Encode() + after)).phase == Failed
  {
    var rx := r.Encode() + after;
    assert rx[3..3 + |r.payload|] == r.payload;
    RunStep(device, InRecords(rx));
  }

  lemma RejectIsFailed(device: seq<byte>, s: seq<byte>, why: Reject)
    requires why.Explains(device, s)
    ensures Parse(device, s).phase == Failed
  {
    hide Run;
    match why {
      case BadMagic =>
        assert More(START, s).rx == s;
        RunStep(device, More(START, s));
        RunStops(device, Step(device, More(START, s)));
      case ForeignDevice(before, named, after) =>
        MagicStep(device, EncodeRecords(device, before) + (named.Encode() + after));
        RecordsAreSkipped(device, before, named.Encode() + after);
        ForeignFails(device, named, after);
      case BadPacket(header, padding, packets, rest) =>
        var body := padding + SYNC_WORD + (EncodeAll(packets) + rest);
        HeaderIsSkipped(device, header, body);
        SyncFound(device, body, |padding|, []);
        assert body[|padding| + 4..] == EncodeAll(packets) + rest;
        PacketsOutcome(device, packets, rest, Invalid, [] + body[..|padding| + 4]);
    }
  }

  lemma FailedIsReject(device: seq<byte>, s: seq<byte>) returns (why: Reject)
    requires Parse(device, s).phase == Failed
    ensures why.Explains(device, s)
  {
    hide Run;
    why := BadMagic;
    if !(MAGIC <= s) {
      assert More(START, s).rx == s;
      if |s| < 13 { RunStops(device, More(START, s)); }
    } else {
      var records, r := SplitHeader(device, s);
      if |r| >= 5 && r[0] == RECORD_E {
        why := BodyReject(device, s, records, r);
      } else if Ready(InRecords(r)) {
        var n := RecordSize(r);
        var named := Record(r[0], r[1], r[3..n]);
        assert r == named.Encode() + r[n..];
        why := ForeignDevice(records, named, r[n..]);
      } else {
        RunStops(device, InRecords(r));
      }
    }
  }

  lemma BodyReject(device: seq<byte>, s: seq<byte>, records: seq<Record>, r: seq<byte>) returns (why: Reject)
    requires Parse(device, s).phase == Failed
    requires AllAccepted(device, records) && s == MAGIC + (EncodeRecords(device, records) + r)
    requires |r| >= 5 && r[0] == RECORD_E
    ensures why.Explains(device, s)
  {
    hide Run;
    var h, rest := MAGIC + (EncodeRecords(device, records) + r[..5]), r[5..];
    assert StartRecord(r[..5]);
    assert IsHeader(device, h) && s == h + rest;
    var k, packets, tail, stop := BodyOutcome(device, h, rest);
    why := BadPacket(h, rest[..k], packets, tail);
    assert rest == rest[..k] + rest[k..k + 4] + rest[k + 4..];
  }

  /** A file is rejected exactly for a bad magic number, a record naming another device, or a
      packet boundary holding a word that is neither a type 1 nor a type 2 header. */
  lemma FailedExactly(device: seq<byte>, s: seq<byte>)
    ensures Parse(device, s).phase == Failed <==> exists why: Reject :: why.Explains(device, s)
  {
    if Parse(device, s).phase == Failed {
      var why := FailedIsReject(device, s);
    }
    forall why: Reject | why.Explains(device, s)
      ensures Parse(device, s).phase == Failed
    {
      RejectIsFailed(device, s, why);
    }
  }
}
