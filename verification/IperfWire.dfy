/** The parameter message as it is on the wire: its texts, and the settings they make. */
module IperfWire {
  import opened Bytes
  import opened Decimals
  import opened IperfJson
  import opened Iperf3Server

  /** The names the server knows. */
  lemma NamesAre()
    ensures KeyOf(Text("udp")) == UdpMode && CString(Text("udp")) == Text("udp")
    ensures KeyOf(Text("reverse")) == ReverseMode && CString(Text("reverse")) == Text("reverse")
    ensures KeyOf(Text("time")) == Duration && CString(Text("time")) == Text("time")
    ensures KeyOf(Text("len")) == BlockLength && CString(Text("len")) == Text("len")
    ensures KeyOf(Text("bandwidth")) == Key.Bandwidth && CString(Text("bandwidth")) == Text("bandwidth")
  {
    TextsAre();
    KeysAre();
    PlainNames();
    hide CString, Text, KeyOf;
  }

  lemma KeysAre()
    ensures KeyOf(UDP) == UdpMode && KeyOf(REVERSE) == ReverseMode && KeyOf(TIME) == Duration
    ensures KeyOf(LEN) == BlockLength && KeyOf(BANDWIDTH) == Key.Bandwidth
  {
    assert LEN[0] != UDP[0];
  }

  lemma PlainNames()
    ensures CString(UDP) == UDP && CString(REVERSE) == REVERSE && CString(TIME) == TIME
    ensures CString(LEN) == LEN && CString(BANDWIDTH) == BANDWIDTH
  {
    hide CString;
    NoNul(UDP);
    NoNul(REVERSE);
    NoNul(TIME);
    NoNul(LEN);
    NoNul(BANDWIDTH);
  }

  lemma TextsAre()
    ensures Text("udp") == UDP && Text("reverse") == REVERSE && Text("time") == TIME
    ensures Text("len") == LEN && Text("bandwidth") == BANDWIDTH
  {
  }

  /** The two values of a switch. */
  lemma SwitchesAre()
    ensures SettingOf(Text("true")) == Set(true) && CString(Text("true")) == Text("true")
    ensures SettingOf(Text("false")) == Set(false) && CString(Text("false")) == Text("false")
    ensures Text("true") == TRUE && Text("false") == FALSE
  {
    assert Text("true") == TRUE && Text("false") == FALSE;
    NoNul(TRUE);
    NoNul(FALSE);
    hide CString, Text;
  }

  lemma NoNul(s: seq<byte>)
    requires forall b <- s :: b != 0
    ensures CString(s) == s
  {
    assert s[..|s|] == s;
    CStringIs(s, |s|);
  }

  /** The texts true and false, under the names that take them. */
  lemma SwitchByName(c: Connection, value: bool)
    ensures ApplyField(c, Field(Text("udp"), Switch(value))) == c.(udp := value)
    ensures ApplyField(c, Field(Text("reverse"), Switch(value))) == c.(reverse := value)
  {
    NamesAre();
    SwitchesAre();
    hide CString, Text, KeyOf, SettingOf;
  }

  /** The decimals of an int, under the names that take them. */
  lemma NumberByName(c: Connection, n: nat)
    requires n < 0x8000_0000
    ensures ApplyField(c, Field(Text("time"), Decimal(n))) == c.(time := n)
    ensures ApplyField(c, Field(Text("len"), Decimal(n))) == c.(len := n)
    ensures ApplyField(c, Field(Text("bandwidth"), Decimal(n))) == c.(bandwidth := n)
  {
    NamesAre();
    NumberRead(n);
    hide CString, Text, KeyOf, Decimal, Atoi32;
  }

  lemma NumberRead(n: nat)
    requires n < 0x8000_0000
    ensures CString(Decimal(n)) == Decimal(n) && Atoi32(Decimal(n)) == n
  {
    DecimalValue(n);
    NoNul(Decimal(n));
    AtoiDecimal(n, []);
    assert Decimal(n) + [] == Decimal(n);
  }

  /** Any other text than true or false leaves a switch as it is. */
  lemma OtherValues(c: Connection, value: seq<byte>)
    requires CString(value) != Text("true") && CString(value) != Text("false")
    ensures ApplyField(c, Field(Text("udp"), value)) == c
    ensures ApplyField(c, Field(Text("reverse"), value)) == c
  {
    NamesAre();
    SwitchesAre();
    hide CString, Text, KeyOf;
  }

  /** A field of any other name changes nothing. */
  lemma OtherNames(c: Connection, name: seq<byte>, value: seq<byte>)
    requires CString(name) != Text("udp") && CString(name) != Text("reverse") && CString(name) != Text("time")
    requires CString(name) != Text("len") && CString(name) != Text("bandwidth")
    ensures ApplyField(c, Field(name, value)) == c
  {
    TextsAre();
    hide CString, Text;
  }

  /** Signs and leading spaces of a number. */
  lemma SignedNumbers(n: nat, s: seq<byte>)
    ensures Atoi(Text("-") + Decimal(n)) == -(n as int) && Atoi(Text("+") + Decimal(n)) == n
    ensures Atoi(Text(" ") + s) == Atoi(s)
  {
    var d := Decimal(n);
    DecimalValue(n);
    DigitsValue(d);
    assert (Text("-") + d)[1..] == d && (Text("+") + d)[1..] == d && (Text(" ") + s)[1..] == s;
  }

  // ---------------------------------------------------------------- a message

  function Switch(value: bool): seq<byte> { Text(if value then "true" else "false") }

  /** What a client sends for its parameters. */
  function Parameters(udp: bool, reverse: bool, time: nat, len: nat, bandwidth: nat): seq<byte> {
    Text("{\"udp\":") + Switch(udp)
    + (Text(",\"reverse\":") + Switch(reverse)
       + (Text(",\"time\":") + Decimal(time)
          + (Text(",\"len\":") + Decimal(len)
             + (Text(",\"bandwidth\":") + Decimal(bandwidth) + Text("}")))))
  }

  function ParameterFields(udp: bool, reverse: bool, time: nat, len: nat, bandwidth: nat): seq<Field> {
    [Field(Text("udp"), Switch(udp)), Field(Text("reverse"), Switch(reverse)), Field(Text("time"), Decimal(time)),
     Field(Text("len"), Decimal(len)), Field(Text("bandwidth"), Decimal(bandwidth))]
  }

  lemma PiecesAre()
    ensures Text("{\"udp\":") == [OPEN_BRACE, QUOTE] + Text("udp") + [QUOTE, COLON]
    ensures Text(",\"reverse\":") == [COMMA, QUOTE] + Text("reverse") + [QUOTE, COLON]
    ensures Text(",\"time\":") == [COMMA, QUOTE] + Text("time") + [QUOTE, COLON]
    ensures Text(",\"len\":") == [COMMA, QUOTE] + Text("len") + [QUOTE, COLON]
    ensures Text(",\"bandwidth\":") == [COMMA, QUOTE] + Text("bandwidth") + [QUOTE, COLON]
    ensures Text("}") == [CLOSE_BRACE]
  {
    UdpPiece();
    ReversePiece();
    TimePiece();
    LenPiece();
    BandwidthPiece();
    assert Text("}") == [CLOSE_BRACE];
    hide Text;
  }

  lemma UdpPiece()
    ensures Text("{\"udp\":") == [OPEN_BRACE, QUOTE] + Text("udp") + [QUOTE, COLON]
  {
  }

  lemma ReversePiece()
    ensures Text(",\"reverse\":") == [COMMA, QUOTE] + Text("reverse") + [QUOTE, COLON]
  {
  }

  lemma TimePiece()
    ensures Text(",\"time\":") == [COMMA, QUOTE] + Text("time") + [QUOTE, COLON]
  {
  }

  lemma LenPiece()
    ensures Text(",\"len\":") == [COMMA, QUOTE] + Text("len") + [QUOTE, COLON]
  {
  }

  lemma BandwidthPiece()
    ensures Text(",\"bandwidth\":") == [COMMA, QUOTE] + Text("bandwidth") + [QUOTE, COLON]
  {
  }

  /** A field in front of others that are printed behind a comma. */
  lemma PrintNext(open: byte, piece: seq<byte>, f: Field, others: seq<Field>, rest: seq<byte>)
    requires others != [] && piece == [open, QUOTE] + f.name + [QUOTE, COLON]
    requires rest == [COMMA] + Print(others)
    ensures [open] + Print([f] + others) == piece + f.value + rest
  {
    assert ([f] + others)[1..] == others;
    hide Print;
    assert [open] + PrintOne(f) == piece + f.value;
  }

  lemma PrintLast(piece: seq<byte>, f: Field)
    requires piece == [COMMA, QUOTE] + f.name + [QUOTE, COLON]
    ensures [COMMA] + Print([f]) == piece + f.value + [CLOSE_BRACE]
  {
    assert [COMMA] + PrintOne(f) == piece + f.value;
  }

  lemma MessageIsPrinted(udp: bool, reverse: bool, time: nat, len: nat, bandwidth: nat)
    ensures Parameters(udp, reverse, time, len, bandwidth)
            == [OPEN_BRACE] + Print(ParameterFields(udp, reverse, time, len, bandwidth))
  {
    PiecesAre();
    hide Text, Decimal, Print;
    var f := ParameterFields(udp, reverse, time, len, bandwidth);
    var rest4 := Text(",\"bandwidth\":") + Decimal(bandwidth) + Text("}");
    var rest3 := Text(",\"len\":") + Decimal(len) + rest4;
    var rest2 := Text(",\"time\":") + Decimal(time) + rest3;
    var rest1 := Text(",\"reverse\":") + Switch(reverse) + rest2;
    assert [f[3]] + [f[4]] == [f[3], f[4]];
    assert [f[2]] + [f[3], f[4]] == [f[2], f[3], f[4]];
    assert [f[1]] + [f[2], f[3], f[4]] == [f[1], f[2], f[3], f[4]];
    assert [f[0]] + [f[1], f[2], f[3], f[4]] == f;
    PrintLast(Text(",\"bandwidth\":"), f[4]);
    PrintNext(COMMA, Text(",\"len\":"), f[3], [f[4]], rest4);
    PrintNext(COMMA, Text(",\"time\":"), f[2], [f[3], f[4]], rest3);
    PrintNext(COMMA, Text(",\"reverse\":"), f[1], [f[2], f[3], f[4]], rest2);
    PrintNext(OPEN_BRACE, Text("{\"udp\":"), f[0], [f[1], f[2], f[3], f[4]], rest1);
  }

  lemma {:induction false} DecimalLength(n: nat, k: nat, bound: nat)
    requires k > 0 && bound == Pow10(k) && n < bound
    ensures |Decimal(n)| <= k
    decreases k
  {
    if n >= 10 { DecimalLength(n / 10, k - 1, bound / 10); }
  }

  function Pow10(k: nat): nat { if k == 0 then 1 else 10 * Pow10(k - 1) }

  lemma IntIsShort(n: nat)
    requires n < 0x8000_0000
    ensures |Decimal(n)| <= 10 && forall b <- Decimal(n) :: IsDigit(b)
  {
    assert Pow10(2) == 100 && Pow10(4) == 10000 && Pow10(6) == 1000000 && Pow10(8) == 100000000;
    assert Pow10(10) == 10000000000;
    DecimalLength(n, 10, Pow10(10));
    DecimalValue(n);
  }

  lemma FieldsPrint(udp: bool, reverse: bool, time: nat, len: nat, bandwidth: nat)
    requires time < 0x8000_0000 && len < 0x8000_0000 && bandwidth < 0x8000_0000
    ensures AllPrintable(ParameterFields(udp, reverse, time, len, bandwidth))
    ensures |Parameters(udp, reverse, time, len, bandwidth)| <= 100
  {
    IntIsShort(time);
    IntIsShort(len);
    IntIsShort(bandwidth);
    hide Decimal;
    SwitchesPrint(udp, reverse);
    NumbersPrint(time, len, bandwidth);
    hide Text, Printable;
  }

  lemma SwitchesPrint(udp: bool, reverse: bool)
    ensures Printable(Field(Text("udp"), Switch(udp))) && Printable(Field(Text("reverse"), Switch(reverse)))
  {
    TextsAre();
    SwitchesAre();
    hide Text, CString, SettingOf;
    var u, r := Field(UDP, if udp then TRUE else FALSE), Field(REVERSE, if reverse then TRUE else FALSE);
    assert Printable(u) && Printable(r) by { ConstantsPrint(udp); ConstantsPrint(reverse); }
    hide Printable;
  }

  lemma ConstantsPrint(value: bool)
    ensures Printable(Field(UDP, if value then TRUE else FALSE))
    ensures Printable(Field(REVERSE, if value then TRUE else FALSE))
  {
  }

  lemma NumbersPrint(time: nat, len: nat, bandwidth: nat)
    requires time < 0x8000_0000 && len < 0x8000_0000 && bandwidth < 0x8000_0000
    ensures Printable(Field(Text("time"), Decimal(time))) && Printable(Field(Text("len"), Decimal(len)))
    ensures Printable(Field(Text("bandwidth"), Decimal(bandwidth)))
  {
    TextsAre();
    IntIsShort(time);
    IntIsShort(len);
    IntIsShort(bandwidth);
    hide Text, Decimal;
  }

  /** What the fields make of a connection that has no parameters yet. */
  lemma FieldsApply(c: Connection, udp: bool, reverse: bool, time: nat, len: nat, bandwidth: nat)
    requires time < 0x8000_0000 && len < 0x8000_0000 && bandwidth < 0x8000_0000
    ensures ApplyFields(c, ParameterFields(udp, reverse, time, len, bandwidth))
            == c.(udp := udp, reverse := reverse, time := time, len := len, bandwidth := bandwidth)
  {
    hide ApplyField, ApplyFields, Text, Decimal;
    var f := ParameterFields(udp, reverse, time, len, bandwidth);
    SwitchByName(c, udp);
    var d := c.(udp := udp);
    SwitchByName(d, reverse);
    var e := d.(reverse := reverse);
    NumberByName(e, time);
    NumberByName(e.(time := time), len);
    NumberByName(e.(time := time, len := len), bandwidth);
    ApplyFive(c, f);
  }

  lemma ApplyFive(c: Connection, f: seq<Field>)
    requires |f| == 5
    ensures ApplyFields(c, f)
            == ApplyField(ApplyField(ApplyField(ApplyField(ApplyField(c, f[0]), f[1]), f[2]), f[3]), f[4])
  {
    hide ApplyField;
    assert ApplyFields(c, []) == c && [] + [f[0]] == [f[0]];
    ApplyLast(c, [], f[0]);
    ApplyLast(c, f[..1], f[1]);
    ApplyLast(c, f[..2], f[2]);
    ApplyLast(c, f[..3], f[3]);
    ApplyLast(c, f[..4], f[4]);
    assert f[..1] == [f[0]] && f[..2] == f[..1] + [f[1]] && f[..3] == f[..2] + [f[2]];
    assert f[..4] == f[..3] + [f[3]] && f == f[..4] + [f[4]];
  }

  /** The parameters with their length in front. */
  function Message(udp: bool, reverse: bool, time: nat, len: nat, bandwidth: nat): seq<byte>
    requires time < 0x8000_0000 && len < 0x8000_0000 && bandwidth < 0x8000_0000
  {
    FieldsPrint(udp, reverse, time, len, bandwidth);
    var text := Parameters(udp, reverse, time, len, bandwidth);
    WordBytes(|text|) + text
  }

  lemma MessageSettles(c: Connection, udp: bool, reverse: bool, time: nat, len: nat, bandwidth: nat)
    requires time < 0x8000_0000 && len < 0x8000_0000 && bandwidth < 0x8000_0000
    requires c.state == ParamExchange && c.rx == Message(udp, reverse, time, len, bandwidth)
    ensures Settle(c) == if udp && reverse && len < 1480
                         then c.(state := CreateStreams, rx := [], udp := true, reverse := true,
                                 time := time, len := len, bandwidth := bandwidth)
                         else CLEARED
  {
    var text, message := Parameters(udp, reverse, time, len, bandwidth), c.rx;
    var fields := ParameterFields(udp, reverse, time, len, bandwidth);
    FieldsPrint(udp, reverse, time, len, bandwidth);
    WordRead(|text|);
    WordOnly(WordBytes(|text|), text);
    MessageIsPrinted(udp, reverse, time, len, bandwidth);
    FieldsApply(c, udp, reverse, time, len, bandwidth);
    hide BigEndian32, WordBytes, Parameters, ParameterFields, Print, AllPrintable, ApplyFields, ParamsReady;
    hide MessageFields;
    assert message[4..] == text == [OPEN_BRACE] + Print(fields) + [];
    PrintedMessage(message, fields, []);
    assert AfterParams(c) == if udp && reverse && len < 1480
                             then c.(state := CreateStreams, rx := [], udp := true, reverse := true,
                                     time := time, len := len, bandwidth := bandwidth)
                             else CLEARED;
  }

  lemma WordOnly(word: seq<byte>, rest: seq<byte>)
    requires |word| == 4
    ensures BigEndian32(word + rest) == BigEndian32(word)
  {
  }

  /** A client connects and sends its cookie and these parameters, in any segments. It is served exactly if it
      asks for UDP, reverse mode and blocks below 1480 bytes, with the length, time and bandwidth it named. */
  lemma SetupByName(socket: nat, segments: seq<seq<byte>>, cookie: seq<byte>,
                    udp: bool, reverse: bool, time: nat, len: nat, bandwidth: nat)
    requires time < 0x8000_0000 && len < 0x8000_0000 && bandwidth < 0x8000_0000
    requires |cookie| == 37 && Concat(segments) == cookie + Message(udp, reverse, time, len, bandwidth)
    ensures var c := CLEARED.(valid := true, socket := socket);
            DeliverAll(c, segments)
            == if udp && reverse && len < 1480
               then c.(state := CreateStreams, udp := true, reverse := true, time := time, len := len,
                       bandwidth := bandwidth)
               else CLEARED
  {
    var c := CLEARED.(valid := true, socket := socket);
    var message := Message(udp, reverse, time, len, bandwidth);
    FieldsPrint(udp, reverse, time, len, bandwidth);
    assert |message| <= 104;
    hide Message, Parameters, WordBytes, AfterParams, ParamsReady, BigEndian32;
    SegmentsDoNotMatter(c, segments);
    assert c.rx + (cookie + message) == cookie + message;
    assert (cookie + message)[37..] == message;
    MessageSettles(c.(rx := message, state := ParamExchange), udp, reverse, time, len, bandwidth);
  }
}
