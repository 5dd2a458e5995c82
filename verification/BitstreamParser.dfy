/** The pure one-pass parser that FPGAFirmwareUpdater refines: it sees the whole stream at once, has
    unbounded buffers, and moves the smallest possible amount of data in each step. */
module BitstreamParser {
  import opened Bytes

  datatype Phase = ReadBitHdr | ReadRecords | SyncWait | Bitstream | BigWrite | Done | Failed

  /** `rx` is what has not been consumed yet, `out` everything emitted towards flash. */
  datatype Parser = Parser(phase: Phase, big: nat, rx: seq<byte>, out: seq<byte>)

  const MAGIC: seq<byte> :=
    [0x00, 0x09, 0x0f, 0xf0, 0x0f, 0xf0, 0x0f, 0xf0, 0x0f, 0xf0, 0x00, 0x00, 0x01]
  const SYNC_WORD: seq<byte> := [0xaa, 0x99, 0x55, 0x66]
  const RECORD_B: byte := 0x62
  const RECORD_E: byte := 0x65
  const REG_CMD := 0x04
  const CMD_DESYNC := 0x0d

  // Fields of a packet header (its first four bytes).
  function PacketType(head: seq<byte>): nat requires |head| >= 4 { head[0] / 0x20 }
  function Opcode(head: seq<byte>): nat requires |head| >= 4 { BigEndian32(head) / 0x800_0000 % 4 }
  function RegAddr(head: seq<byte>): nat requires |head| >= 4 { BigEndian32(head) / 0x2000 % 0x100 }
  function ShortLen(head: seq<byte>): nat requires |head| >= 4 { BigEndian32(head) % 0x400 }
  function LongLen(head: seq<byte>): nat requires |head| >= 4 { BigEndian32(head) % 0x800_0000 }

  /** Bytes of a type 1 packet, header included. */
  function ShortSize(head: seq<byte>): nat requires |head| >= 4 { 4 * (ShortLen(head) + 1) }

  /** A complete type 1 packet that ends the image. */
  predicate EndsImage(packet: seq<byte>)
    requires |packet| >= 4 && |packet| >= ShortSize(packet)
  {
    Opcode(packet) != 0 && ShortLen(packet) == 1 && RegAddr(packet) == REG_CMD
    && BigEndian32(packet[4..]) % 0x20 == CMD_DESYNC
  }

  predicate Terminal(phase: Phase) { phase == Done || phase == Failed }

  /** Enough bytes are present for one step. The start record 'e' is five bytes long. */
  predicate Ready(p: Parser) {
    match p.phase
    case ReadBitHdr => |p.rx| >= 13
    case ReadRecords => |p.rx| >= 3 && |p.rx| >= RecordSize(p.rx)
    case SyncWait => |p.rx| > 4
    case Bitstream => |p.rx| >= 4 && (PacketType(p.rx) == 1 ==> |p.rx| >= ShortSize(p.rx))
    case BigWrite => |p.rx| >= 4
    case _ => false
  }

  function RecordSize(rx: seq<byte>): nat
    requires |rx| >= 3
  {
    if rx[0] == RECORD_E then 5 else 3 + rx[2] as int
  }

  /** The target-device record names another device. */
  predicate WrongDevice(device: seq<byte>, rx: seq<byte>)
    requires |rx| >= 3 && |rx| >= RecordSize(rx)
  {
    rx[0] == RECORD_B && CString(rx[3..RecordSize(rx)]) != device
  }

  function Step(device: seq<byte>, p: Parser): (q: Parser)
    requires Ready(p)
    ensures |q.rx| < |p.rx| || (q.rx == p.rx && Rank(q.phase) < Rank(p.phase))
    ensures p.out <= q.out
  {
    match p.phase
    case ReadBitHdr =>
      if p.rx[..13] != MAGIC then p.(phase := Failed)
      else p.(phase := ReadRecords, rx := p.rx[13..])
    case ReadRecords =>
      var n := RecordSize(p.rx);
      p.(phase := if p.rx[0] == RECORD_E then SyncWait
                  else if WrongDevice(device, p.rx) then Failed else ReadRecords,
         rx := p.rx[n..])
    case SyncWait =>
      if p.rx[..4] == SYNC_WORD then Emit(p, 4).(phase := Bitstream) else Emit(p, 1)
    case Bitstream =>
      if PacketType(p.rx) == 1 then
        Emit(p, ShortSize(p.rx)).(phase := if EndsImage(p.rx) then Done else Bitstream)
      else if PacketType(p.rx) == 2 then
        Emit(p, 4).(phase := BigWrite, big := LongLen(p.rx))
      else p.(phase := Failed)
    case BigWrite =>
      if p.big == 0 then p.(phase := Bitstream)
      else Emit(p, 4).(big := p.big - 1, phase := if p.big == 1 then Bitstream else BigWrite)
  }

  /** Moves the next `n` bytes from the input to the output. */
  function Emit(p: Parser, n: nat): (q: Parser)
    requires n <= |p.rx|
    ensures q.out + q.rx == p.out + p.rx && |q.rx| == |p.rx| - n
  {
    p.(rx := p.rx[n..], out := p.out + p.rx[..n])
  }

  /** Second component of the termination measure: these moves consume nothing. */
  function Rank(phase: Phase): nat {
    match phase
    case ReadBitHdr => 1
    case BigWrite => 2
    case Bitstream => 1
    case _ => 0
  }

  /** Steps until more input is needed. A finished or failed parser discards its input. */
  function Run(device: seq<byte>, p: Parser): (q: Parser)
    ensures p.out <= q.out
    ensures Terminal(q.phase) ==> q.rx == []
    ensures !Ready(q)
    decreases |p.rx|, Rank(p.phase)
  {
    if Terminal(p.phase) then p.(rx := [])
    else if Ready(p) then Run(device, Step(device, p))
    else p
  }

  lemma RunStep(device: seq<byte>, p: Parser)
    requires Ready(p)
    ensures Run(device, p) == Run(device, Step(device, p))
  {
  }

  lemma RunStops(device: seq<byte>, p: Parser)
    requires !Ready(p)
    ensures Run(device, p) == if Terminal(p.phase) then p.(rx := []) else p
  {
  }

  const START := Parser(ReadBitHdr, 0, [], [])

  function More(p: Parser, data: seq<byte>): Parser { p.(rx := p.rx + data) }

  function Feed(device: seq<byte>, p: Parser, data: seq<byte>): Parser { Run(device, More(p, data)) }

  /** The one-pass parse of a whole stream. */
  function Parse(device: seq<byte>, stream: seq<byte>): Parser { Feed(device, START, stream) }

  lemma ParseNothing(device: seq<byte>)
    ensures Run(device, START) == Parse(device, []) == START
  {
    assert More(START, []) == START;
  }

  /** The stream stops inside the five bytes of the start record, at its third or fourth byte. */
  predicate TornRecord(p: Parser) {
    p.phase == ReadRecords && 3 <= |p.rx| < 5 && p.rx[0] == RECORD_E
  }

  // ---------------------------------------------------------------- chunk independence

  lemma EmitMonotone(p: Parser, data: seq<byte>, n: nat)
    requires n <= |p.rx|
    ensures Emit(More(p, data), n) == More(Emit(p, n), data)
    ensures (p.rx + data)[..n] == p.rx[..n] && (p.rx + data)[n..] == p.rx[n..] + data
  {
  }

  /** Everything the parser looks at in a packet depends only on bytes already required to be there. */
  lemma FieldsMonotone(rx: seq<byte>, data: seq<byte>)
    requires |rx| >= 4
    ensures PacketType(rx + data) == PacketType(rx) && ShortLen(rx + data) == ShortLen(rx)
    ensures LongLen(rx + data) == LongLen(rx)
    ensures |rx| >= ShortSize(rx) ==> EndsImage(rx + data) == EndsImage(rx)
  {
    hide BigEndian32;
    assert BigEndian32(rx + data) == BigEndian32(rx) by { WordMonotone(rx, data); }
    if |rx| >= 8 {
      assert (rx + data)[4..] == rx[4..] + data;
      WordMonotone(rx[4..], data);
    }
  }

  lemma WordMonotone(rx: seq<byte>, data: seq<byte>)
    requires |rx| >= 4
    ensures BigEndian32(rx + data) == BigEndian32(rx)
  {
  }

  /** More input never disables or changes a step. */
  lemma StepMonotone(device: seq<byte>, p: Parser, data: seq<byte>)
    requires Ready(p)
    ensures Ready(More(p, data))
    ensures Step(device, More(p, data)) == More(Step(device, p), data)
  {
    match p.phase {
      case ReadBitHdr => EmitMonotone(p, data, 13);
      case ReadRecords =>
        var n := RecordSize(p.rx);
        EmitMonotone(p, data, n);
        assert (p.rx + data)[3..n] == p.rx[3..n];
      case SyncWait =>
        EmitMonotone(p, data, 4);
        EmitMonotone(p, data, 1);
      case Bitstream => PacketMonotone(device, p, data);
      case BigWrite => EmitMonotone(p, data, 4);
    }
  }

  lemma PacketMonotone(device: seq<byte>, p: Parser, data: seq<byte>)
    requires Ready(p) && p.phase == Bitstream
    ensures Ready(More(p, data))
    ensures Step(device, More(p, data)) == More(Step(device, p), data)
  {
    hide BigEndian32, PacketType, ShortLen, LongLen, EndsImage;
    FieldsMonotone(p.rx, data);
    EmitMonotone(p, data, 4);
    if PacketType(p.rx) == 1 {
      EmitMonotone(p, data, ShortSize(p.rx));
    }
  }

  /** Input may be held back until the parser has stopped. */
  lemma {:induction false} RunThenMore(device: seq<byte>, p: Parser, data: seq<byte>)
    ensures Feed(device, Run(device, p), data) == Feed(device, p, data)
    decreases |p.rx|, Rank(p.phase)
  {
    if !Terminal(p.phase) && Ready(p) {
      StepMonotone(device, p, data);
      RunThenMore(device, Step(device, p), data);
    }
  }

  /** Two chunks one after the other do what their concatenation does. */
  lemma FeedTwice(device: seq<byte>, p: Parser, a: seq<byte>, b: seq<byte>)
    ensures Feed(device, Feed(device, p, a), b) == Feed(device, p, a + b)
  {
    RunThenMore(device, More(p, a), b);
    assert More(More(p, a), b) == More(p, a + b);
  }

  function FeedAll(device: seq<byte>, p: Parser, chunks: seq<seq<byte>>): Parser
    decreases |chunks|
  {
    if chunks == [] then p else FeedAll(device, Feed(device, p, chunks[0]), chunks[1..])
  }

  /** Every split of a stream into chunks is parsed like the stream in one piece. */
  lemma {:induction false} ChunksDoNotMatter(device: seq<byte>, p: Parser, chunks: seq<seq<byte>>)
    requires Run(device, p) == p
    ensures FeedAll(device, p, chunks) == Feed(device, p, Concat(chunks))
    decreases |chunks|
  {
    if chunks == [] {
      assert More(p, []) == p;
    } else {
      RunIdempotent(device, More(p, chunks[0]));
      ChunksDoNotMatter(device, Feed(device, p, chunks[0]), chunks[1..]);
      FeedTwice(device, p, chunks[0], Concat(chunks[1..]));
    }
  }

  lemma {:induction false} RunIdempotent(device: seq<byte>, p: Parser)
    ensures Run(device, Run(device, p)) == Run(device, p)
    decreases |p.rx|, Rank(p.phase)
  {
    if !Terminal(p.phase) && Ready(p) {
      RunIdempotent(device, Step(device, p));
    }
  }

  /** A run of `k` body words at once: what the updater does with a big write. */
  function BigWords(p: Parser, k: nat): Parser
    requires k <= p.big && 4 * k <= |p.rx|
  {
    Emit(p, 4 * k).(big := p.big - k, phase := if 0 < k == p.big then Bitstream else BigWrite)
  }

  lemma {:induction false} RunBigWords(device: seq<byte>, p: Parser, k: nat)
    requires p.phase == BigWrite && k <= p.big && 4 * k <= |p.rx|
    ensures Run(device, p) == Run(device, BigWords(p, k))
    decreases k
  {
    hide Run;
    if k == 0 {
      assert BigWords(p, 0) == p;
    } else {
      RunStep(device, p);
      if 1 < p.big {
        RunBigWords(device, BigWords(p, 1), k - 1);
        BigWordsSplit(p, k);
      }
    }
  }

  lemma BigWordsSplit(p: Parser, k: nat)
    requires p.phase == BigWrite && 0 < k <= p.big && 1 < p.big && 4 * k <= |p.rx|
    ensures BigWords(BigWords(p, 1), k - 1) == BigWords(p, k)
  {
    var q := BigWords(p, 1);
    assert q.rx[4 * k - 4..] == p.rx[4 * k..];
    assert q.out + q.rx[..4 * k - 4] == p.out + p.rx[..4 * k];
  }
}
