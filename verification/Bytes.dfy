/** Bytes, C strings and the big-endian words of the configuration stream. */
module Bytes {
  type byte = x: int | 0 <= x < 256

  /** The characters of a text, one byte each. */
  function Text(s: string): (t: seq<byte>)
    ensures |t| == |s|
  {
    seq(|s|, i requires 0 <= i < |s| => s[i] as int % 256)
  }

  /** A 32-bit word stored most significant byte first. */
  function BigEndian32(s: seq<byte>): (w: nat)
    requires |s| >= 4
    ensures w < 0x1_0000_0000
  {
    s[0] as int * 0x100_0000 + s[1] as int * 0x1_0000 + s[2] as int * 0x100 + s[3] as int
  }

  /** A word as it is sent, most significant byte first. */
  function WordBytes(w: nat): (s: seq<byte>)
    requires w < 0x1_0000_0000
    ensures |s| == 4
  {
    [w / 0x100_0000, w / 0x1_0000 % 0x100, w / 0x100 % 0x100, w % 0x100]
  }

  lemma WordRead(w: nat)
    requires w < 0x1_0000_0000
    ensures BigEndian32(WordBytes(w)) == w
  {
    var b := w / 0x100;
    var c := b / 0x100;
    assert w == c * 0x1_0000 + (b % 0x100 * 0x100 + w % 0x100);
    assert w / 0x1_0000 == c && w / 0x100_0000 == c / 0x100;
  }

  /** The bytes before the first NUL, or all of them. */
  function CString(s: seq<byte>): (r: seq<byte>)
    ensures 0 !in r && r <= s
    ensures |r| < |s| ==> s[|r|] == 0
  {
    if s == [] || s[0] == 0 then [] else [s[0]] + CString(s[1..])
  }

  /** The bytes before the first NUL are the C string. */
  lemma {:induction false} CStringIs(s: seq<byte>, n: nat)
    requires n <= |s| && 0 !in s[..n] && (n < |s| ==> s[n] == 0)
    ensures CString(s) == s[..n]
  {
    if n > 0 {
      assert s[..n] == [s[0]] + s[1..][..n - 1];
      CStringIs(s[1..], n - 1);
    }
  }

  function Concat<T>(parts: seq<seq<T>>): seq<T> {
    if parts == [] then [] else parts[0] + Concat(parts[1..])
  }

  lemma ConcatOne<T>(part: seq<T>)
    ensures Concat([part]) == part
  {
    assert [part][1..] == [];
  }

  lemma {:induction false} ConcatAppend<T>(parts: seq<seq<T>>, last: seq<T>)
    ensures Concat(parts + [last]) == Concat(parts) + last
  {
    if parts == [] {
      assert parts + [last] == [last];
      assert Concat([last]) == last;
    } else {
      assert (parts + [last])[1..] == parts[1..] + [last];
      ConcatAppend(parts[1..], last);
    }
  }
}
