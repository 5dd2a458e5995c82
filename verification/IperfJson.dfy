/** The iperf server's JSON subset: the character loop of OnRxParamExchange, and what it accepts. */
module IperfJson {
  import opened Bytes

  const QUOTE: byte := 0x22
  const COMMA: byte := 0x2c
  const COLON: byte := 0x3a
  const OPEN_BRACE: byte := 0x7b
  const CLOSE_BRACE: byte := 0x7d
  const TOKEN_SIZE := 32

  datatype Field = Field(name: seq<byte>, value: seq<byte>)

  datatype Scan =
    | OpenQuote
    | InName(name: seq<byte>)
    | WantColon(name: seq<byte>)
    | InValue(name: seq<byte>, value: seq<byte>)

  /** The connection is dropped, or the fields read so far; `closed` when the closing brace was seen. */
  datatype Outcome = Dropped | Parsed(fields: seq<Field>, closed: bool)

  predicate EndsValue(c: byte) { c == COMMA || c == CLOSE_BRACE }

  function ParseFrom(st: Scan, s: seq<byte>, acc: seq<Field>): Outcome
    decreases |s|
  {
    if s == [] then Parsed(acc, false) else
      var c, rest := s[0], s[1..];
      match st
      case OpenQuote => if c != QUOTE then Dropped else ParseFrom(InName([]), rest, acc)
      case InName(n) =>
        if |n| >= TOKEN_SIZE then Dropped
        else if c == QUOTE then ParseFrom(WantColon(n), rest, acc)
        else ParseFrom(InName(n + [c]), rest, acc)
      case WantColon(n) => if c != COLON then Dropped else ParseFrom(InValue(n, []), rest, acc)
      case InValue(n, v) =>
        if |v| >= TOKEN_SIZE then Dropped
        else if c == CLOSE_BRACE then Parsed(acc + [Field(n, v)], true)
        else if c == COMMA then ParseFrom(OpenQuote, rest, acc + [Field(n, v)])
        else ParseFrom(InValue(n, v + [c]), rest, acc)
  }

  /** The loop, with the source's two 32-byte buffers and one index. The text includes the opening brace. */
  method ParseFields(json: seq<byte>) returns (o: Outcome)
    requires json != []
    ensures o == ParseFrom(OpenQuote, json[1..], [])
  {
    var name, value := new byte[TOKEN_SIZE](_ => 0), new byte[TOKEN_SIZE](_ => 0);
    var fields: seq<Field> := [];
    var st, nameLen, j := 0, 0, 0;
    var i := 1;
    while i < |json|
      invariant 1 <= i <= |json|
      invariant 0 <= st <= 3 && j <= TOKEN_SIZE && nameLen <= TOKEN_SIZE
      invariant ParseFrom(Position(st, name[..nameLen], name[..j], value[..j]), json[i..], fields)
                == ParseFrom(OpenQuote, json[1..], [])
    {
      var c := json[i];
      ghost var partName, partValue, named := name[..j], value[..j], name[..nameLen];
      assert json[i..][0] == c && json[i..][1..] == json[i + 1..];
      match st {
        case 0 =>
          if c != QUOTE { return Dropped; }
          st, j := 1, 0;
        case 1 =>
          if j >= TOKEN_SIZE { return Dropped; }
          if c == QUOTE {
            name[j] := 0;
            assert name[..j] == partName;
            st, nameLen := 2, j;
          } else {
            name[j] := c;
            j := j + 1;
            assert name[..j] == partName + [c];
          }
        case 2 =>
          if c != COLON { return Dropped; }
          st, j := 3, 0;
        case _ =>
          if j >= TOKEN_SIZE { return Dropped; }
          if EndsValue(c) {
            value[j] := 0;
            assert value[..j] == partValue && name[..nameLen] == named;
            fields := fields + [Field(name[..nameLen], value[..j])];
            st := 0;
            if c == CLOSE_BRACE { return Parsed(fields, true); }
          } else {
            value[j] := c;
            j := j + 1;
            assert value[..j] == partValue + [c] && name[..nameLen] == named;
          }
      }
      i := i + 1;
    }
    o := Parsed(fields, false);
  }

  /** The parser position the source's state number, buffers and index stand for. */
  ghost function Position(st: int, name: seq<byte>, partName: seq<byte>, partValue: seq<byte>): Scan {
    match st
    case 0 => OpenQuote
    case 1 => InName(partName)
    case 2 => WantColon(name)
    case _ => InValue(name, partValue)
  }

  // ---------------------------------------------------------------- what is accepted

  predicate Printable(f: Field) {
    && |f.name| < TOKEN_SIZE && QUOTE !in f.name
    && |f.value| < TOKEN_SIZE && COMMA !in f.value && CLOSE_BRACE !in f.value
  }

  predicate AllPrintable(fields: seq<Field>) { forall f <- fields :: Printable(f) }

  function PrintOne(f: Field): seq<byte> { [QUOTE] + f.name + [QUOTE, COLON] + f.value }

  /** "n":v,... followed by the closing brace. */
  function Print(fields: seq<Field>): seq<byte>
    requires fields != []
  {
    if |fields| == 1 then PrintOne(fields[0]) + [CLOSE_BRACE]
    else PrintOne(fields[0]) + [COMMA] + Print(fields[1..])
  }

  lemma {:induction false} NameRead(n: seq<byte>, s: seq<byte>, rest: seq<byte>, acc: seq<Field>)
    requires |n| + |s| < TOKEN_SIZE && QUOTE !in s
    ensures ParseFrom(InName(n), s + [QUOTE] + rest, acc) == ParseFrom(WantColon(n + s), rest, acc)
    decreases |s|
  {
    var t := s + [QUOTE] + rest;
    if s == [] {
      assert t[1..] == rest && n + s == n;
    } else {
      assert t[1..] == s[1..] + [QUOTE] + rest;
      assert n + [s[0]] + s[1..] == n + s;
      NameRead(n + [s[0]], s[1..], rest, acc);
    }
  }

  lemma {:induction false} ValueRead(n: seq<byte>, v: seq<byte>, s: seq<byte>, end: byte, rest: seq<byte>,
                                     acc: seq<Field>)
    requires |v| + |s| < TOKEN_SIZE && COMMA !in s && CLOSE_BRACE !in s && EndsValue(end)
    ensures ParseFrom(InValue(n, v), s + [end] + rest, acc)
            == if end == CLOSE_BRACE then Parsed(acc + [Field(n, v + s)], true)
               else ParseFrom(OpenQuote, rest, acc + [Field(n, v + s)])
    decreases |s|
  {
    var t := s + [end] + rest;
    if s == [] {
      assert t[1..] == rest && v + s == v;
    } else {
      assert t[1..] == s[1..] + [end] + rest;
      assert v + [s[0]] + s[1..] == v + s;
      ValueRead(n, v + [s[0]], s[1..], end, rest, acc);
    }
  }

  lemma FieldRead(f: Field, end: byte, rest: seq<byte>, acc: seq<Field>)
    requires Printable(f) && EndsValue(end)
    ensures ParseFrom(OpenQuote, PrintOne(f) + [end] + rest, acc)
            == if end == CLOSE_BRACE then Parsed(acc + [f], true) else ParseFrom(OpenQuote, rest, acc + [f])
  {
    var tail := f.value + [end] + rest;
    var s := PrintOne(f) + [end] + rest;
    assert s[1..] == f.name + [QUOTE] + ([COLON] + tail);
    NameRead([], f.name, [COLON] + tail, acc);
    assert [] + f.name == f.name && [] + f.value == f.value;
    assert ([COLON] + tail)[1..] == tail;
    ValueRead(f.name, [], f.value, end, rest, acc);
  }

  /** Printing fields and parsing the text gives them back, whatever follows the closing brace. */
  lemma {:induction false} RoundTrip(fields: seq<Field>, rest: seq<byte>, acc: seq<Field>)
    requires fields != [] && AllPrintable(fields)
    ensures ParseFrom(OpenQuote, Print(fields) + rest, acc) == Parsed(acc + fields, true)
    decreases |fields|
  {
    hide ParseFrom, Print, PrintOne, Printable;
    var f := fields[0];
    PrintSplits(fields, rest);
    if |fields| == 1 {
      FieldRead(f, CLOSE_BRACE, rest, acc);
      assert acc + [f] == acc + fields;
    } else {
      FieldRead(f, COMMA, Print(fields[1..]) + rest, acc);
      RoundTrip(fields[1..], rest, acc + [f]);
      assert acc + [f] + fields[1..] == acc + fields;
    }
  }

  lemma PrintSplits(fields: seq<Field>, rest: seq<byte>)
    requires fields != []
    ensures var f := PrintOne(fields[0]);
            Print(fields) + rest == if |fields| == 1 then f + [CLOSE_BRACE] + rest
                                    else f + [COMMA] + (Print(fields[1..]) + rest)
  {
    hide PrintOne;
  }

  predicate Closed(o: Outcome) { o.Parsed? && o.closed }

  lemma {:induction false} NameEnds(n: seq<byte>, s: seq<byte>, acc: seq<Field>) returns (k: nat)
    requires Closed(ParseFrom(InName(n), s, acc))
    ensures k < |s| && s[k] == QUOTE && QUOTE !in s[..k] && |n| + k < TOKEN_SIZE
    decreases |s|
  {
    if s[0] == QUOTE {
      k := 0;
    } else {
      k := NameEnds(n + [s[0]], s[1..], acc);
      k := k + 1;
      assert s[..k] == [s[0]] + s[1..][..k - 1];
    }
  }

  lemma {:induction false} ValueEnds(n: seq<byte>, v: seq<byte>, s: seq<byte>, acc: seq<Field>) returns (k: nat)
    requires Closed(ParseFrom(InValue(n, v), s, acc))
    ensures k < |s| && EndsValue(s[k]) && COMMA !in s[..k] && CLOSE_BRACE !in s[..k] && |v| + k < TOKEN_SIZE
    decreases |s|
  {
    if EndsValue(s[0]) {
      k := 0;
    } else {
      k := ValueEnds(n, v + [s[0]], s[1..], acc);
      k := k + 1;
      assert s[..k] == [s[0]] + s[1..][..k - 1];
    }
  }

  /** A text that is parsed to its closing brace begins with a quoted name ... */
  lemma NameFound(s: seq<byte>, acc: seq<Field>) returns (n: seq<byte>, t: seq<byte>)
    requires Closed(ParseFrom(OpenQuote, s, acc))
    ensures |n| < TOKEN_SIZE && QUOTE !in n && s == [QUOTE] + (n + [QUOTE] + t)
    ensures Closed(ParseFrom(WantColon(n), t, acc))
  {
    assert s[0] == QUOTE && Closed(ParseFrom(InName([]), s[1..], acc));
    hide ParseFrom;
    var k := NameEnds([], s[1..], acc);
    n, t := s[1..][..k], s[1..][k + 1..];
    assert s[1..] == n + [QUOTE] + t;
    NameRead([], n, t, acc);
    assert [] + n == n;
  }

  /** ... then a colon and a value. */
  lemma ValueFound(n: seq<byte>, t: seq<byte>, acc: seq<Field>) returns (v: seq<byte>, end: byte, rest: seq<byte>)
    requires Closed(ParseFrom(WantColon(n), t, acc))
    ensures |v| < TOKEN_SIZE && COMMA !in v && CLOSE_BRACE !in v && EndsValue(end)
    ensures t == [COLON] + (v + [end] + rest)
  {
    assert t[0] == COLON && Closed(ParseFrom(InValue(n, []), t[1..], acc));
    hide ParseFrom;
    var u := t[1..];
    var m := ValueEnds(n, [], u, acc);
    v, end, rest := u[..m], u[m], u[m + 1..];
    assert u == v + [end] + rest;
  }

  lemma FieldFound(s: seq<byte>, acc: seq<Field>) returns (f: Field, end: byte, rest: seq<byte>)
    requires Closed(ParseFrom(OpenQuote, s, acc))
    ensures Printable(f) && EndsValue(end) && s == PrintOne(f) + [end] + rest
  {
    hide ParseFrom;
    var n, t := NameFound(s, acc);
    var v;
    v, end, rest := ValueFound(n, t, acc);
    f := Field(n, v);
    assert s == PrintOne(f) + [end] + rest;
  }

  lemma {:induction false} ClosedIsPrinted(s: seq<byte>, acc: seq<Field>) returns (fields: seq<Field>, rest: seq<byte>)
    requires Closed(ParseFrom(OpenQuote, s, acc))
    ensures fields != [] && AllPrintable(fields) && s == Print(fields) + rest
    decreases |s|
  {
    var f, end, tail := FieldFound(s, acc);
    FieldRead(f, end, tail, acc);
    if end == CLOSE_BRACE {
      fields, rest := [f], tail;
    } else {
      var others;
      others, rest := ClosedIsPrinted(tail, acc + [f]);
      fields := [f] + others;
      assert fields[1..] == others;
      assert s == PrintOne(f) + [COMMA] + Print(others) + rest;
    }
  }

  /** The text is read to a closing brace with these fields exactly when it begins with them, printed. */
  lemma ParsedExactly(s: seq<byte>, fields: seq<Field>)
    ensures ParseFrom(OpenQuote, s, []) == Parsed(fields, true) <==>
            fields != [] && AllPrintable(fields) && Print(fields) <= s
  {
    if fields != [] && AllPrintable(fields) && Print(fields) <= s {
      var rest := s[|Print(fields)|..];
      assert s == Print(fields) + rest;
      RoundTrip(fields, rest, []);
      assert [] + fields == fields;
    }
    if ParseFrom(OpenQuote, s, []) == Parsed(fields, true) {
      var found, rest := ClosedIsPrinted(s, []);
      RoundTrip(found, rest, []);
      assert [] + found == found;
    }
  }
}
