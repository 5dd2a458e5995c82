/** Which texts the iperf server's JSON reader rejects, and what it has read of one that just ends. */
module IperfJsonErrors {
  import opened Bytes
  import opened IperfJson

  /** Fields that are each followed by a comma. */
  function Open(fields: seq<Field>): seq<byte> {
    if fields == [] then [] else PrintOne(fields[0]) + [COMMA] + Open(fields[1..])
  }

  /** What can be wrong where a field should begin: no quote, a name of 32 characters that goes on, no colon,
      or a value of 32 characters that goes on. */
  datatype Defect =
    | NoQuote(c: byte)
    | LongName(name: seq<byte>, c: byte)
    | NoColon(name: seq<byte>, c: byte)
    | LongValue(name: seq<byte>, value: seq<byte>, c: byte)
  {
    predicate Ok() {
      match this
      case NoQuote(c) => c != QUOTE
      case LongName(n, c) => |n| == 32 && QUOTE !in n
      case NoColon(n, c) => |n| < 32 && QUOTE !in n && c != COLON
      case LongValue(n, v, c) => |n| < 32 && QUOTE !in n && |v| == 32 && COMMA !in v && CLOSE_BRACE !in v
    }

    function Spelled(): seq<byte> {
      match this
      case NoQuote(c) => [c]
      case LongName(n, c) => [QUOTE] + n + [c]
      case NoColon(n, c) => [QUOTE] + n + [QUOTE] + [c]
      case LongValue(n, v, c) => [QUOTE] + n + [QUOTE] + ([COLON] + v + [c])
    }
  }

  // ---------------------------------------------------------------- a defect drops the connection

  lemma NothingOpen()
    ensures Open([]) == []
  {
  }

  lemma OpenSplits(fields: seq<Field>, rest: seq<byte>)
    requires fields != []
    ensures Open(fields) + rest == PrintOne(fields[0]) + [COMMA] + (Open(fields[1..]) + rest)
  {
    hide PrintOne;
  }

  lemma {:induction false} OpenRead(fields: seq<Field>, rest: seq<byte>, acc: seq<Field>)
    requires AllPrintable(fields)
    ensures ParseFrom(OpenQuote, Open(fields) + rest, acc) == ParseFrom(OpenQuote, rest, acc + fields)
    decreases |fields|
  {
    hide ParseFrom, PrintOne, Printable;
    if fields == [] {
      assert Open(fields) + rest == rest && acc + fields == acc;
    } else {
      var f := fields[0];
      OpenSplits(fields, rest);
      FieldRead(f, COMMA, Open(fields[1..]) + rest, acc);
      OpenRead(fields[1..], rest, acc + [f]);
      assert acc + [f] + fields[1..] == acc + fields;
    }
  }

  lemma {:induction false} NameGoesOn(n: seq<byte>, s: seq<byte>, rest: seq<byte>, acc: seq<Field>)
    requires |n| + |s| <= 32 && QUOTE !in s
    ensures ParseFrom(InName(n), s + rest, acc) == ParseFrom(InName(n + s), rest, acc)
    decreases |s|
  {
    if s == [] {
      assert s + rest == rest && n + s == n;
    } else {
      assert (s + rest)[1..] == s[1..] + rest && n + [s[0]] + s[1..] == n + s;
      NameGoesOn(n + [s[0]], s[1..], rest, acc);
    }
  }

  lemma {:induction false} ValueGoesOn(n: seq<byte>, v: seq<byte>, s: seq<byte>, rest: seq<byte>, acc: seq<Field>)
    requires |v| + |s| <= 32 && COMMA !in s && CLOSE_BRACE !in s
    ensures ParseFrom(InValue(n, v), s + rest, acc) == ParseFrom(InValue(n, v + s), rest, acc)
    decreases |s|
  {
    if s == [] {
      assert s + rest == rest && v + s == v;
    } else {
      assert (s + rest)[1..] == s[1..] + rest && v + [s[0]] + s[1..] == v + s;
      ValueGoesOn(n, v + [s[0]], s[1..], rest, acc);
    }
  }

  lemma NameBegins(t: seq<byte>, acc: seq<Field>)
    ensures ParseFrom(OpenQuote, [QUOTE] + t, acc) == ParseFrom(InName([]), t, acc)
  {
    assert ([QUOTE] + t)[1..] == t;
  }

  lemma ValueBegins(n: seq<byte>, t: seq<byte>, acc: seq<Field>)
    ensures ParseFrom(WantColon(n), [COLON] + t, acc) == ParseFrom(InValue(n, []), t, acc)
  {
    assert ([COLON] + t)[1..] == t;
  }

  lemma NameThenColon(n: seq<byte>, rest: seq<byte>, acc: seq<Field>)
    requires |n| < 32 && QUOTE !in n
    ensures ParseFrom(OpenQuote, [QUOTE] + (n + [QUOTE] + rest), acc) == ParseFrom(WantColon(n), rest, acc)
  {
    hide ParseFrom;
    NameBegins(n + [QUOTE] + rest, acc);
    NameRead([], n, rest, acc);
    assert [] + n == n;
  }

  lemma LongNameDrops(n: seq<byte>, c: byte, rest: seq<byte>, acc: seq<Field>)
    requires |n| == 32 && QUOTE !in n
    ensures ParseFrom(OpenQuote, [QUOTE] + n + [c] + rest, acc) == Dropped
  {
    var tail := [c] + rest;
    assert ParseFrom(InName(n), tail, acc) == Dropped;
    hide ParseFrom;
    NameBegins(n + tail, acc);
    NameGoesOn([], n, tail, acc);
    assert [] + n == n;
    assert [QUOTE] + (n + tail) == [QUOTE] + n + [c] + rest;
  }

  lemma NoColonDrops(n: seq<byte>, c: byte, rest: seq<byte>, acc: seq<Field>)
    requires |n| < 32 && QUOTE !in n && c != COLON
    ensures ParseFrom(OpenQuote, [QUOTE] + n + [QUOTE] + [c] + rest, acc) == Dropped
  {
    var tail := [c] + rest;
    assert ParseFrom(WantColon(n), tail, acc) == Dropped;
    hide ParseFrom;
    NameThenColon(n, tail, acc);
    assert [QUOTE] + (n + [QUOTE] + tail) == [QUOTE] + n + [QUOTE] + [c] + rest;
  }

  lemma Assoc(a: seq<byte>, b: seq<byte>, c: seq<byte>)
    ensures a + (b + c) == a + b + c
  {
  }

  lemma ValueSplits(n: seq<byte>, v: seq<byte>, c: byte, after: seq<byte>)
    ensures [QUOTE] + (n + [QUOTE] + ([COLON] + (v + [c] + after))) == LongValue(n, v, c).Spelled() + after
            == PrintOne(Field(n, v)) + [c] + after
  {
    var head, tail := [QUOTE] + n + [QUOTE], [COLON] + v + [c];
    Assoc([COLON], v + [c], after);
    Assoc([COLON], v, [c]);
    assert [QUOTE] + (n + [QUOTE] + (tail + after)) == head + (tail + after) by {
      Assoc([QUOTE], n + [QUOTE], tail + after);
      Assoc([QUOTE], n, [QUOTE]);
    }
    Assoc(head, tail, after);
    PrintSpells(n, v, c);
  }

  lemma PrintSpells(n: seq<byte>, v: seq<byte>, c: byte)
    ensures PrintOne(Field(n, v)) + [c] == [QUOTE] + n + [QUOTE] + ([COLON] + v + [c])
  {
    assert [QUOTE, COLON] == [QUOTE] + [COLON];
  }

  lemma LongValueDrops(n: seq<byte>, v: seq<byte>, c: byte, rest: seq<byte>, acc: seq<Field>)
    requires |n| < 32 && QUOTE !in n && |v| == 32 && COMMA !in v && CLOSE_BRACE !in v
    ensures ParseFrom(OpenQuote, LongValue(n, v, c).Spelled() + rest, acc) == Dropped
  {
    var tail := [c] + rest;
    assert ParseFrom(InValue(n, v), tail, acc) == Dropped;
    hide ParseFrom;
    ValueBegins(n, v + tail, acc);
    ValueGoesOn(n, [], v, tail, acc);
    NameThenColon(n, [COLON] + (v + tail), acc);
    assert [] + v == v && v + tail == v + [c] + rest;
    ValueSplits(n, v, c, rest);
  }

  lemma DefectDrops(d: Defect, rest: seq<byte>, acc: seq<Field>)
    requires d.Ok()
    ensures ParseFrom(OpenQuote, d.Spelled() + rest, acc) == Dropped
  {
    match d {
      case NoQuote(c) =>
        assert (d.Spelled() + rest)[0] == c;
      case LongName(n, c) =>
        hide ParseFrom;
        LongNameDrops(n, c, rest, acc);
      case NoColon(n, c) =>
        hide ParseFrom;
        NoColonDrops(n, c, rest, acc);
      case LongValue(n, v, c) =>
        hide ParseFrom;
        LongValueDrops(n, v, c, rest, acc);
    }
  }

  // ---------------------------------------------------------------- and nothing else does

  /** How far a name goes: to its quote, to 32 characters, or to the end of the text. */
  lemma {:induction false} NameScan(n: seq<byte>, t: seq<byte>, acc: seq<Field>) returns (k: nat)
    requires |n| <= 32
    ensures k <= |t| && QUOTE !in t[..k] && |n| + k <= 32
    ensures k < |t| && |n| + k < 32 ==> t[k] == QUOTE
    ensures k == |t| ==> ParseFrom(InName(n), t, acc) == Parsed(acc, false)
    decreases |t|
  {
    if t == [] || |n| == 32 || t[0] == QUOTE {
      k := 0;
    } else {
      k := NameScan(n + [t[0]], t[1..], acc);
      k := k + 1;
      assert t[..k] == [t[0]] + t[1..][..k - 1];
    }
  }

  lemma {:induction false} ValueScan(n: seq<byte>, v: seq<byte>, t: seq<byte>, acc: seq<Field>) returns (k: nat)
    requires |v| <= 32
    ensures k <= |t| && COMMA !in t[..k] && CLOSE_BRACE !in t[..k] && |v| + k <= 32
    ensures k < |t| && |v| + k < 32 ==> EndsValue(t[k])
    ensures k == |t| ==> ParseFrom(InValue(n, v), t, acc) == Parsed(acc, false)
    decreases |t|
  {
    if t == [] || |v| == 32 || EndsValue(t[0]) {
      k := 0;
    } else {
      k := ValueScan(n, v + [t[0]], t[1..], acc);
      k := k + 1;
      assert t[..k] == [t[0]] + t[1..][..k - 1];
    }
  }

  /** Where a field should begin, there is a whole one, or a defect, or the text ends. */
  datatype Front = Whole(field: Field, end: byte, rest: seq<byte>) | Broken(defect: Defect, after: seq<byte>) | Cut

  predicate IsFront(s: seq<byte>, acc: seq<Field>, front: Front) {
    match front
    case Whole(f, end, rest) => Printable(f) && EndsValue(end) && s == PrintOne(f) + [end] + rest
    case Broken(d, after) => d.Ok() && s == d.Spelled() + after
    case Cut => ParseFrom(OpenQuote, s, acc) == Parsed(acc, false)
  }

  lemma Around(t: seq<byte>, k: nat)
    requires k < |t|
    ensures t == t[..k] + [t[k]] + t[k + 1..]
  {
  }

  lemma FindFront(s: seq<byte>, acc: seq<Field>) returns (front: Front)
    ensures IsFront(s, acc, front)
  {
    if s == [] {
      front := Cut;
    } else if s[0] != QUOTE {
      front := Broken(NoQuote(s[0]), s[1..]);
    } else {
      var t := s[1..];
      assert s == [QUOTE] + t;
      assert ParseFrom(OpenQuote, s, acc) == ParseFrom(InName([]), t, acc);
      hide ParseFrom, Printable, PrintOne;
      var k := NameScan([], t, acc);
      if k == |t| {
        front := Cut;
      } else {
        var n, c, u := t[..k], t[k], t[k + 1..];
        Around(t, k);
        if k == 32 {
          Assoc([QUOTE], n + [c], u);
          Assoc([QUOTE], n, [c]);
          front := Broken(LongName(n, c), u);
        } else {
          NameThenColon(n, u, acc);
          front := FindRest(s, n, u, acc);
        }
      }
    }
  }

  lemma FindRest(s: seq<byte>, n: seq<byte>, u: seq<byte>, acc: seq<Field>) returns (front: Front)
    requires |n| < 32 && QUOTE !in n && s == [QUOTE] + (n + [QUOTE] + u)
    requires ParseFrom(OpenQuote, s, acc) == ParseFrom(WantColon(n), u, acc)
    ensures IsFront(s, acc, front)
  {
    if u == [] {
      front := Cut;
    } else if u[0] != COLON {
      front := Broken(NoColon(n, u[0]), u[1..]);
      assert u == [u[0]] + u[1..];
    } else {
      var w := u[1..];
      assert u == [COLON] + w;
      hide ParseFrom;
      ValueBegins(n, w, acc);
      front := FindValue(s, n, w, acc);
    }
  }

  lemma FindValue(s: seq<byte>, n: seq<byte>, w: seq<byte>, acc: seq<Field>) returns (front: Front)
    requires |n| < 32 && QUOTE !in n && s == [QUOTE] + (n + [QUOTE] + ([COLON] + w))
    requires ParseFrom(OpenQuote, s, acc) == ParseFrom(InValue(n, []), w, acc)
    ensures IsFront(s, acc, front)
  {
    hide ParseFrom;
    var k := ValueScan(n, [], w, acc);
    if k == |w| {
      front := Cut;
    } else {
      var v, c, after := w[..k], w[k], w[k + 1..];
      Around(w, k);
      ValueSplits(n, v, c, after);
      hide PrintOne;
      front := if k == 32 then Broken(LongValue(n, v, c), after) else Whole(Field(n, v), c, after);
    }
  }

  /** A text that is not read to a closing brace: the whole fields it begins with, and what comes then. */
  lemma {:induction false} FindEnd(s: seq<byte>, acc: seq<Field>)
    returns (fields: seq<Field>, front: Front, rest: seq<byte>)
    requires !Closed(ParseFrom(OpenQuote, s, acc))
    ensures AllPrintable(fields) && s == Open(fields) + rest
    ensures if front.Broken? then front.defect.Ok() && front.defect.Spelled() <= rest
            else ParseFrom(OpenQuote, s, acc) == Parsed(acc + fields, false)
    decreases |s|
  {
    front := FindFront(s, acc);
    hide ParseFrom, PrintOne, Printable, Open, Defect.Spelled, Defect.Ok;
    fields, rest := [], s;
    NothingOpen();
    assert acc + [] == acc;
    if front.Whole? {
      var f, tail := front.field, front.rest;
      FieldRead(f, front.end, tail, acc);
      assert front.end == COMMA;
      fields, front, rest := FindEnd(tail, acc + [f]);
      assert acc + [f] + fields == acc + ([f] + fields);
      OpenSplits([f] + fields, rest);
      assert ([f] + fields)[1..] == fields;
      fields := [f] + fields;
    }
  }

  lemma OpenThenDefect(fields: seq<Field>, d: Defect, s: seq<byte>)
    requires AllPrintable(fields) && d.Ok() && Open(fields) + d.Spelled() <= s
    ensures ParseFrom(OpenQuote, s, []) == Dropped
  {
    hide ParseFrom, Open, Defect.Spelled, Defect.Ok, Printable;
    var rest := s[|Open(fields) + d.Spelled()|..];
    OpenRead(fields, d.Spelled() + rest, []);
    DefectDrops(d, rest, [] + fields);
    assert s == Open(fields) + (d.Spelled() + rest);
  }

  /** The connection is dropped exactly for a text that begins with whole fields and then a defect. */
  lemma DroppedExactly(s: seq<byte>)
    ensures ParseFrom(OpenQuote, s, []) == Dropped <==>
              exists fields, d: Defect :: AllPrintable(fields) && d.Ok() && Open(fields) + d.Spelled() <= s
  {
    hide ParseFrom, Open, Defect.Spelled, Defect.Ok, Printable;
    forall fields, d: Defect | AllPrintable(fields) && d.Ok() && Open(fields) + d.Spelled() <= s
      ensures ParseFrom(OpenQuote, s, []) == Dropped
    {
      OpenThenDefect(fields, d, s);
    }
    if ParseFrom(OpenQuote, s, []) == Dropped {
      var fields, front, rest := FindEnd(s, []);
      assert Open(fields) + front.defect.Spelled() <= s;
    }
  }

  lemma {:induction false} FieldsKept(st: Scan, s: seq<byte>, acc: seq<Field>)
    ensures var o := ParseFrom(st, s, acc);
            o.Parsed? ==> acc <= o.fields
    decreases |s|
  {
    if s != [] {
      var c, rest := s[0], s[1..];
      match st
      case OpenQuote => FieldsKept(InName([]), rest, acc);
      case InName(n) => FieldsKept(if c == QUOTE then WantColon(n) else InName(n + [c]), rest, acc);
      case WantColon(n) => FieldsKept(InValue(n, []), rest, acc);
      case InValue(n, v) =>
        FieldsKept(OpenQuote, rest, acc + [Field(n, v)]);
        FieldsKept(InValue(n, v + [c]), rest, acc);
    }
  }

  /** A text that just ends has given the whole fields it begins with, and there is not one more. */
  lemma UnclosedKeeps(s: seq<byte>, fields: seq<Field>)
    requires ParseFrom(OpenQuote, s, []) == Parsed(fields, false)
    ensures AllPrintable(fields) && Open(fields) <= s
    ensures forall more | AllPrintable(more) && Open(more) <= s :: more <= fields
  {
    hide ParseFrom, Open, Defect.Spelled, Defect.Ok, Printable;
    var found, front, rest := FindEnd(s, []);
    if front.Broken? {
      OpenThenDefect(found, front.defect, s);
    }
    assert [] + found == found;
    forall more | AllPrintable(more) && Open(more) <= s ensures more <= fields {
      var tail := s[|Open(more)|..];
      assert s == Open(more) + tail && [] + more == more;
      OpenRead(more, tail, []);
      FieldsKept(OpenQuote, tail, more);
    }
  }
}
