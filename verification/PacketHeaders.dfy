/** The configuration packet headers, written out from their fields, and what the decoders, the grammar
    and the parser make of them. */
module PacketHeaders {
  import opened Bytes
  import opened BitstreamParser
  import opened Framing

  /** Bits 31-29 are 001; bits 28-27 the operation; 20-13 the register; 9-0 the number of words. `high`
      and `low` stand for the bits that are not looked at. */
  function ShortHeader(op: nat, high: nat, reg: nat, low: nat, len: nat): (w: nat)
    requires op < 4 && high < 64 && reg < 256 && low < 8 && len < 1024
    ensures 0x2000_0000 <= w < 0x4000_0000
  {
    0x2000_0000 + op * 0x800_0000 + high * 0x20_0000 + reg * 0x2000 + low * 0x400 + len
  }

  /** Bits 31-29 are 010; bits 28-27 are not looked at; 26-0 are the number of words. */
  function LongHeader(op: nat, len: nat): (w: nat)
    requires op < 4 && len < 0x800_0000
    ensures 0x4000_0000 <= w < 0x6000_0000
  {
    0x4000_0000 + op * 0x800_0000 + len
  }

  /** The type is in the three highest bits. */
  lemma TypeRead(w: nat)
    requires w < 0x1_0000_0000
    ensures PacketType(WordBytes(w)) == w / 0x2000_0000
  {
  }

  lemma ShortRead(op: nat, high: nat, reg: nat, low: nat, len: nat)
    requires op < 4 && high < 64 && reg < 256 && low < 8 && len < 1024
    ensures var head := WordBytes(ShortHeader(op, high, reg, low, len));
            && PacketType(head) == 1 && Opcode(head) == op && RegAddr(head) == reg && ShortLen(head) == len
            && ShortSize(head) == 4 + 4 * len
  {
    var w := ShortHeader(op, high, reg, low, len);
    WordRead(w);
    TypeRead(w);
    OpField(op, high, reg, low, len);
    RegField(op, high, reg, low, len);
    LenField(op, high, reg, low, len);
    hide WordBytes, BigEndian32, ShortHeader;
  }

  lemma OpField(op: nat, high: nat, reg: nat, low: nat, len: nat)
    requires op < 4 && high < 64 && reg < 256 && low < 8 && len < 1024
    ensures ShortHeader(op, high, reg, low, len) / 0x800_0000 % 4 == op
  {
    var w := ShortHeader(op, high, reg, low, len);
    var below := high * 0x20_0000 + reg * 0x2000 + low * 0x400 + len;
    assert w == (4 + op) * 0x800_0000 + below && 0 <= below < 0x800_0000;
  }

  lemma RegField(op: nat, high: nat, reg: nat, low: nat, len: nat)
    requires op < 4 && high < 64 && reg < 256 && low < 8 && len < 1024
    ensures ShortHeader(op, high, reg, low, len) / 0x2000 % 0x100 == reg
  {
    var w := ShortHeader(op, high, reg, low, len);
    var above, below := 0x100 + op * 0x40 + high, low * 0x400 + len;
    assert w == (above * 0x100 + reg) * 0x2000 + below && 0 <= below < 0x2000;
    assert w / 0x2000 == above * 0x100 + reg;
  }

  lemma LenField(op: nat, high: nat, reg: nat, low: nat, len: nat)
    requires op < 4 && high < 64 && reg < 256 && low < 8 && len < 1024
    ensures ShortHeader(op, high, reg, low, len) % 0x400 == len
  {
    var above := 0x8_0000 + op * 0x2_0000 + high * 0x800 + reg * 0x8 + low;
    assert ShortHeader(op, high, reg, low, len) == above * 0x400 + len;
  }

  lemma LongRead(op: nat, len: nat)
    requires op < 4 && len < 0x800_0000
    ensures var head := WordBytes(LongHeader(op, len));
            PacketType(head) == 2 && LongLen(head) == len
  {
    var w := LongHeader(op, len);
    WordRead(w);
    TypeRead(w);
    assert w == (8 + op) * 0x800_0000 + len;
    hide WordBytes, BigEndian32, LongHeader;
  }

  /** Among the packets of type 1, the last of an image are those that write one word to register 4 whose
      low five bits are 13, under any operation but 0. */
  lemma DesyncExactly(op: nat, high: nat, reg: nat, low: nat, body: seq<byte>)
    requires op < 4 && high < 64 && reg < 256 && low < 8 && |body| % 4 == 0 && |body| < 4096
    ensures var p := Packet(WordBytes(ShortHeader(op, high, reg, low, |body| / 4)), body);
            p.WellFormed() && (p.Desync() <==> op != 0 && reg == 4 && |body| == 4 && body[3] % 32 == 13)
  {
    ShortRead(op, high, reg, low, |body| / 4);
    if |body| == 4 { LowBits(body); }
    hide WordBytes, ShortHeader, PacketType, Opcode, RegAddr, ShortLen, BigEndian32;
  }

  lemma LowBits(body: seq<byte>)
    requires |body| == 4
    ensures BigEndian32(body) % 32 == body[3] % 32
  {
  }

  /** At a packet boundary, the bytes of such a packet end the image, themselves included. */
  lemma DesyncEnds(device: seq<byte>, rest: seq<byte>, out: seq<byte>)
    ensures var packet: seq<byte> := [0x30, 0x00, 0x80, 0x01, 0x00, 0x00, 0x00, 0x0d];
            Run(device, InPackets(packet + rest, out)) == Parser(Done, 0, [], out + packet)
  {
    var head: seq<byte> := [0x30, 0x00, 0x80, 0x01];
    var body: seq<byte> := [0x00, 0x00, 0x00, 0x0d];
    assert head == WordBytes(ShortHeader(2, 0, 4, 0, 1));
    DesyncExactly(2, 0, 4, 0, body);
    DesyncPacket(device, Packet(head, body), rest, out);
    assert head + body == [0x30, 0x00, 0x80, 0x01, 0x00, 0x00, 0x00, 0x0d];
  }

  /** Behind a type 2 header of n words, 4 * n bytes are forwarded, whatever they are: the next byte is at a
      packet boundary again. */
  lemma LongIsForwarded(device: seq<byte>, op: nat, body: seq<byte>, rest: seq<byte>, out: seq<byte>)
    requires op < 4 && |body| % 4 == 0 && |body| / 4 < 0x800_0000 && |rest| >= 4
    ensures var head := WordBytes(LongHeader(op, |body| / 4));
            Run(device, InPackets(head + body + rest, out)) == Run(device, InPackets(rest, out + (head + body)))
  {
    var head := WordBytes(LongHeader(op, |body| / 4));
    LongRead(op, |body| / 4);
    hide WordBytes, LongHeader, PacketType, LongLen, Run;
    OnePacket(device, Packet(head, body), rest, out);
  }

  /** So are the 4 * n bytes behind a type 1 header of n words, unless they end the image. */
  lemma ShortIsForwarded(device: seq<byte>, op: nat, high: nat, reg: nat, low: nat, body: seq<byte>,
                         rest: seq<byte>, out: seq<byte>)
    requires op < 4 && high < 64 && reg < 256 && low < 8 && |body| % 4 == 0 && |body| < 4096 && |rest| >= 4
    requires !(op != 0 && reg == 4 && |body| == 4 && body[3] % 32 == 13)
    ensures var head := WordBytes(ShortHeader(op, high, reg, low, |body| / 4));
            Run(device, InPackets(head + body + rest, out)) == Run(device, InPackets(rest, out + (head + body)))
  {
    DesyncExactly(op, high, reg, low, body);
    hide WordBytes, ShortHeader, Run;
    OnePacket(device, Packet(WordBytes(ShortHeader(op, high, reg, low, |body| / 4)), body), rest, out);
  }

  /** A word of any other type fails the update. */
  lemma OtherTypesFail(device: seq<byte>, w: nat, rest: seq<byte>, out: seq<byte>)
    requires w < 0x2000_0000 || 0x6000_0000 <= w < 0x1_0000_0000
    ensures Run(device, InPackets(WordBytes(w) + rest, out)) == Parser(Failed, 0, [], out)
  {
    TypeRead(w);
    var rx := WordBytes(w) + rest;
    assert rx[0] == WordBytes(w)[0];
    InvalidFails(device, rx, out);
  }

  /** A header record that holds a text is skipped, unless it is a 'b' record that names another device. */
  lemma RecordOnWire(device: seq<byte>, kind: byte, mark: byte, text: seq<byte>, rest: seq<byte>)
    requires kind != 0x65 && |text| < 255 && 0 !in text
    ensures var record := [kind, mark, |text| + 1] + (text + [0]);
            Run(device, InRecords(record + rest))
            == if kind == 0x62 && text != device then Parser(Failed, 0, [], []) else Run(device, InRecords(rest))
  {
    var r := Record(kind, mark, text + [0]);
    assert r.payload[..|text|] == text;
    CStringIs(r.payload, |text|);
    hide Run, CString;
    if r.Accepted(device) {
      RecordStep(device, r, rest);
    } else {
      var s := InRecords(r.Encode() + rest);
      assert s.rx[3..3 + |r.payload|] == r.payload;
      RunStep(device, s);
      RunStops(device, Step(device, s));
    }
  }

  const MAGIC_BYTES: seq<byte> := [0x00, 0x09, 0x0f, 0xf0, 0x0f, 0xf0, 0x0f, 0xf0, 0x0f, 0xf0, 0x00, 0x00, 0x01]
  const DEVICE_RECORD: seq<byte> := [0x62, 0x00, 0x03, 0x78, 0x37, 0x00]
  const START_BYTES: seq<byte> := [0x65, 0x00, 0x00, 0x00, 0x0c]
  const IMAGE_BYTES: seq<byte> := [
    0xff, 0xff, 0xff, 0xff, 0xaa, 0x99, 0x55, 0x66, 0x30, 0x00, 0x80, 0x01, 0x00, 0x00, 0x00, 0x0d]

  /** A whole file for the device "x7": the header, four bytes of padding, the sync word, and DESYNC. */
  lemma SmallFile(tail: seq<byte>)
    ensures Parse(Text("x7"), MAGIC_BYTES + (DEVICE_RECORD + START_BYTES) + (IMAGE_BYTES + tail))
            == Parser(Done, 0, [], IMAGE_BYTES)
  {
    var device: seq<byte> := [0x78, 0x37];
    assert Text("x7") == device;
    var header, image := MAGIC_BYTES + (DEVICE_RECORD + START_BYTES), IMAGE_BYTES + tail;
    SmallHeader(device, header);
    SyncAtFour(image);
    SmallImage(tail);
    hide Run, Parse, IsHeader, SyncFirstAt;
    HeaderIsSkipped(device, header, image);
    SyncFound(device, image, 4, []);
    DesyncEnds(device, tail, [] + image[..8]);
  }

  lemma SmallImage(tail: seq<byte>)
    ensures var image, packet := IMAGE_BYTES + tail, [0x30, 0x00, 0x80, 0x01, 0x00, 0x00, 0x00, 0x0d];
            image[8..] == packet + tail && [] + image[..8] + packet == IMAGE_BYTES
  {
    var packet := [0x30, 0x00, 0x80, 0x01, 0x00, 0x00, 0x00, 0x0d];
    assert IMAGE_BYTES == IMAGE_BYTES[..8] + packet;
    assert (IMAGE_BYTES + tail)[..8] == IMAGE_BYTES[..8];
  }

  lemma SmallHeader(device: seq<byte>, header: seq<byte>)
    requires device == [0x78, 0x37] && header == MAGIC_BYTES + (DEVICE_RECORD + START_BYTES)
    ensures IsHeader(device, header)
  {
    var r := Record(0x62, 0x00, [0x78, 0x37, 0x00]);
    CStringIs(r.payload, 2);
    assert r.payload[..2] == device;
    RecordsCons(device, r, []);
    assert [r] + [] == [r] && r.Encode() == DEVICE_RECORD;
    assert EncodeRecords(device, [r]) == DEVICE_RECORD;
    assert AllAccepted(device, [r]) && StartRecord(START_BYTES) && MAGIC == MAGIC_BYTES;
  }

  lemma SyncAtFour(image: seq<byte>)
    requires IMAGE_BYTES <= image
    ensures SyncFirstAt(image, 4)
  {
    assert image[4..8] == IMAGE_BYTES[4..8] == SYNC_WORD by {
      assert image[..16] == IMAGE_BYTES;
    }
    forall i | 0 <= i < 4 ensures image[i] == IMAGE_BYTES[i] {}
    forall j | 0 <= j < 4 ensures !SyncAt(image, j) {
      assert image[j..j + 4][0] == image[j] == 0xff;
    }
  }
}
