/** Parsing "a.b.c.d/n", and the netmask and broadcast address SetIPAddress derives from it. */
module Ipv4Address {
  import opened Bits
  import opened Bytes
  import opened Decimals

  const DOT: byte := 0x2e
  const SLASH: byte := 0x2f
  const UINT32 := 0x1_0000_0000

  // ---------------------------------------------------------------- splitting

  /** What separates field k-1 from field k. */
  function Separator(k: nat): byte { if k == 4 then SLASH else DOT }

  function Join(runs: seq<seq<byte>>): seq<byte>
    requires runs != []
  {
    var n := |runs| - 1;
    if n == 0 then runs[0] else Join(runs[..n]) + [Separator(n)] + runs[n]
  }

  /** `s` is one to five runs of digits, the first four separated by dots and the last by a slash. */
  predicate IsSplit(s: seq<byte>, runs: seq<seq<byte>>) {
    1 <= |runs| <= 5 && (forall k | 0 <= k < |runs| :: AllDigits(runs[k])) && s == Join(runs)
  }

  datatype Scan = Bad | Runs(runs: seq<seq<byte>>)

  /** Reading left to right, the way the source does. */
  function ScanText(s: seq<byte>): (r: Scan)
    ensures r.Runs? ==> 1 <= |r.runs| <= 5
  {
    if s == [] then Runs([[]]) else
      var c := s[|s| - 1];
      match ScanText(s[..|s| - 1])
      case Bad => Bad
      case Runs(runs) =>
        var n := |runs| - 1;
        if (c == DOT && n < 3) || (c == SLASH && n == 3) then Runs(runs + [[]])
        else if IsDigit(c) then Runs(runs[n := runs[n] + [c]])
        else Bad
  }

  lemma ScanOne(s: seq<byte>, c: byte)
    ensures ScanText(s + [c]) == match ScanText(s)
            case Bad => Bad
            case Runs(runs) =>
              var n := |runs| - 1;
              if (c == DOT && n < 3) || (c == SLASH && n == 3) then Runs(runs + [[]])
              else if IsDigit(c) then Runs(runs[n := runs[n] + [c]])
              else Bad
  {
    assert (s + [c])[..|s|] == s;
  }

  lemma JoinNew(runs: seq<seq<byte>>)
    requires runs != []
    ensures Join(runs + [[]]) == Join(runs) + [Separator(|runs|)]
  {
    assert (runs + [[]])[..|runs|] == runs;
  }

  lemma JoinDigit(runs: seq<seq<byte>>, c: byte)
    requires runs != []
    ensures var n := |runs| - 1; Join(runs[n := runs[n] + [c]]) == Join(runs) + [c]
  {
    var n := |runs| - 1;
    assert runs[n := runs[n] + [c]][..n] == runs[..n];
  }

  /** A split grows by a separator or a digit. */
  lemma SplitGrows(s: seq<byte>, runs: seq<seq<byte>>, c: byte)
    requires IsSplit(s, runs)
    ensures |runs| < 5 && c == Separator(|runs|) ==> IsSplit(s + [c], runs + [[]])
    ensures IsDigit(c) ==> IsSplit(s + [c], runs[|runs| - 1 := runs[|runs| - 1] + [c]])
  {
    JoinNew(runs);
    JoinDigit(runs, c);
  }

  lemma {:induction false} ScanSound(s: seq<byte>)
    ensures ScanText(s).Runs? ==> IsSplit(s, ScanText(s).runs)
  {
    if s == [] {
      assert IsSplit([], [[]]);
    } else {
      var n := |s| - 1;
      var front, c := s[..n], s[n];
      assert s == front + [c];
      ScanSound(front);
      ScanOne(front, c);
      if ScanText(front).Runs? {
        hide IsSplit;
        SplitGrows(front, ScanText(front).runs, c);
      }
    }
  }

  /** Taking the last digit off a split. */
  lemma PeelDigit(runs: seq<seq<byte>>) returns (before: seq<seq<byte>>, c: byte)
    requires runs != [] && IsSplit(Join(runs), runs) && runs[|runs| - 1] != []
    ensures |before| == |runs| && IsSplit(Join(before), before) && IsDigit(c)
    ensures var n := |runs| - 1; runs == before[n := before[n] + [c]] && Join(runs) == Join(before) + [c]
  {
    var n := |runs| - 1;
    var last := runs[n];
    var m := |last| - 1;
    before, c := runs[n := last[..m]], last[m];
    assert AllDigits(last);
    assert last == last[..m] + [c];
    JoinDigit(before, c);
  }

  lemma PeelSeparator(runs: seq<seq<byte>>) returns (before: seq<seq<byte>>)
    requires |runs| > 1 && IsSplit(Join(runs), runs) && runs[|runs| - 1] == []
    ensures |before| == |runs| - 1 && IsSplit(Join(before), before)
    ensures runs == before + [[]] && Join(runs) == Join(before) + [Separator(|before|)]
  {
    before := runs[..|runs| - 1];
    assert runs == before + [[]];
    JoinNew(before);
  }

  lemma {:induction false} ScanComplete(s: seq<byte>, runs: seq<seq<byte>>)
    requires IsSplit(s, runs)
    ensures ScanText(s) == Runs(runs)
    decreases |s|
  {
    hide ScanText, AllDigits;
    var n := |runs| - 1;
    if runs[n] != [] {
      var before, c := PeelDigit(runs);
      ScanComplete(Join(before), before);
      ScanOne(Join(before), c);
    } else if n == 0 {
      assert runs == [[]] && s == [];
      ScanNothing();
    } else {
      var before := PeelSeparator(runs);
      ScanComplete(Join(before), before);
      ScanOne(Join(before), Separator(n));
    }
  }

  lemma ScanNothing()
    ensures ScanText([]) == Runs([[]])
  {
  }

  lemma {:induction false} BadStaysBad(s: seq<byte>, k: nat)
    requires k <= |s| && ScanText(s[..k]).Bad?
    ensures ScanText(s).Bad?
    decreases |s|
  {
    if k < |s| {
      assert s[..|s| - 1][..k] == s[..k];
      BadStaysBad(s[..|s| - 1], k);
    } else {
      assert s[..k] == s;
    }
  }

  // ---------------------------------------------------------------- the parser

  datatype Result = Failure | Success(octets: seq<nat>, mask: nat)

  /** A field as the source computes it: a 32-bit number. */
  function FieldValue(run: seq<byte>): (v: nat)
    ensures v < UINT32
  {
    Value(run) % UINT32
  }

  predicate InRange(runs: seq<seq<byte>>) {
    |runs| == 5 && (forall k | 0 <= k < 4 :: FieldValue(runs[k]) <= 255) && 1 <= FieldValue(runs[4]) <= 32
  }

  /** 0xffffffff << (32 - n), in 32 bits. */
  function MaskOf(n: nat): (m: nat)
    requires 1 <= n <= 32
    ensures m < UINT32
  {
    (UINT32 - 1) * Pow2(32 - n) % UINT32
  }

  function ResultOf(runs: seq<seq<byte>>): Result
    requires InRange(runs)
  {
    Success([FieldValue(runs[0]), FieldValue(runs[1]), FieldValue(runs[2]), FieldValue(runs[3])],
            MaskOf(FieldValue(runs[4])))
  }

  lemma ModAbsorbs(v: int, d: int)
    ensures (v % UINT32 * 10 + d) % UINT32 == (10 * v + d) % UINT32
  {
    var q, r := v / UINT32, v % UINT32;
    assert 10 * v + d == r * 10 + d + (10 * q) * UINT32;
    ModMultiple(r * 10 + d, 10 * q);
  }

  lemma ModMultiple(x: int, k: int)
    ensures (x + k * UINT32) % UINT32 == x % UINT32
  {
  }

  lemma FieldStep(run: seq<byte>, c: byte)
    requires IsDigit(c)
    ensures FieldValue(run + [c]) == (FieldValue(run) * 10 + (c as int - 0x30)) % UINT32
  {
    assert (run + [c])[..|run|] == run;
    ModAbsorbs(Value(run), c as int - 0x30);
  }

  /** Succeeds exactly on five runs in range, with their values. */
  method ParseIPAddressWithSubnet(addr: seq<byte>) returns (r: Result)
    ensures r.Success? <==> exists runs :: IsSplit(addr, runs) && InRange(runs)
    ensures forall runs | IsSplit(addr, runs) && InRange(runs) :: r == ResultOf(runs)
  {
    hide ScanText, FieldValue, IsSplit;
    var fields := new nat[5](_ => 0);
    var nfield := 0;
    ghost var runs: seq<seq<byte>> := [[]];
    ScanNothing();
    EmptyField();
    for i := 0 to |addr|
      invariant ScanText(addr[..i]) == Runs(runs) && |runs| == nfield + 1 && 0 <= nfield <= 4
      invariant forall k | 0 <= k <= nfield :: fields[k] == FieldValue(runs[k])
      invariant forall k | nfield < k < 5 :: fields[k] == 0
    {
      var c := addr[i];
      assert addr[..i + 1] == addr[..i] + [c];
      ScanOne(addr[..i], c);
      if c == DOT && nfield < 3 {
        nfield := nfield + 1;
        runs := runs + [[]];
      } else if c == SLASH && nfield == 3 {
        nfield := nfield + 1;
        runs := runs + [[]];
      } else if IsDigit(c) {
        FieldStep(runs[nfield], c);
        fields[nfield] := (fields[nfield] * 10 + (c as int - 0x30)) % UINT32;
        runs := runs[nfield := runs[nfield] + [c]];
      } else {
        BadStaysBad(addr, i + 1);
        NoSplit(addr);
        return Failure;
      }
    }
    assert addr[..|addr|] == addr;
    OnlySplit(addr, runs);
    r := Validate(fields, nfield, runs);
  }

  lemma EmptyField()
    ensures FieldValue([]) == 0
  {
  }

  /** The checks after the loop. */
  method Validate(fields: array<nat>, nfield: nat, ghost runs: seq<seq<byte>>) returns (r: Result)
    requires fields.Length == 5 && 1 <= |runs| == nfield + 1 <= 5
    requires forall k | 0 <= k < |runs| :: fields[k] == FieldValue(runs[k])
    ensures r == if InRange(runs) then ResultOf(runs) else Failure
  {
    hide FieldValue;
    if nfield != 4 { return Failure; }
    for i := 0 to 4
      invariant forall k | 0 <= k < i :: fields[k] <= 255
    {
      if fields[i] > 255 { return Failure; }
    }
    if fields[4] > 32 || fields[4] == 0 { return Failure; }
    r := Success([fields[0], fields[1], fields[2], fields[3]], MaskOf(fields[4]));
  }

  lemma NoSplit(s: seq<byte>)
    requires ScanText(s).Bad?
    ensures forall runs :: !IsSplit(s, runs)
  {
    forall runs | IsSplit(s, runs) ensures false { ScanComplete(s, runs); }
  }

  lemma OnlySplit(s: seq<byte>, runs: seq<seq<byte>>)
    requires ScanText(s) == Runs(runs)
    ensures IsSplit(s, runs) && forall other | IsSplit(s, other) :: other == runs
  {
    ScanSound(s);
    forall other | IsSplit(s, other) ensures other == runs { ScanComplete(s, other); }
  }

  /** Five numbers, as a reader would take them. */
  predicate StrictlyInRange(runs: seq<seq<byte>>) {
    |runs| == 5 && (forall k | 0 <= k < 5 :: runs[k] != [])
    && (forall k | 0 <= k < 4 :: 0 <= Value(runs[k]) <= 255) && 1 <= Value(runs[4]) <= 32
  }

  /** The parser accepts something it should not exactly when a run is empty, or overflows and wraps into
      range. */
  lemma AcceptsExactly(s: seq<byte>, runs: seq<seq<byte>>)
    requires IsSplit(s, runs)
    ensures StrictlyInRange(runs) <==>
              InRange(runs) && forall k | 0 <= k < |runs| :: runs[k] != [] && Value(runs[k]) < UINT32
  {
    forall k | 0 <= k < |runs| ensures Value(runs[k]) >= 0 {
      ValueNonNegative(runs[k]);
    }
    if StrictlyInRange(runs) {
      forall k | 0 <= k < |runs| ensures FieldValue(runs[k]) == Value(runs[k]) < UINT32 {}
    }
  }

  const FOUR_BILLION: seq<byte> := [0x34, 0x32, 0x39, 0x34, 0x39, 0x36, 0x37, 0x32, 0x39, 0x37]  // 4294967297

  // 4294967297.0.0.0/24
  const OVERFLOWING: seq<byte> := [
    0x34, 0x32, 0x39, 0x34, 0x39, 0x36, 0x37, 0x32, 0x39, 0x37, 0x2e, 0x30, 0x2e, 0x30, 0x2e, 0x30, 0x2f, 0x32, 0x34]

  /** It is taken for 1.0.0.0/24. */
  lemma OverflowWraps()
    ensures exists runs :: IsSplit(OVERFLOWING, runs) && !StrictlyInRange(runs)
              && InRange(runs) && ResultOf(runs) == Success([1, 0, 0, 0], MaskOf(24))
  {
    var runs: seq<seq<byte>> := [FOUR_BILLION, [0x30], [0x30], [0x30], [0x32, 0x34]];
    assert IsSplit(OVERFLOWING, runs) by { JoinFive(runs); }
    hide MaskOf, IsSplit;
    PrefixValues();
    assert Value([0x30]) == 0 by { OneDigit(0x30); }
    assert Value([0x32, 0x34]) == 24 by { TwoDigits(0x32, 0x34); }
    assert InRange(runs) && !StrictlyInRange(runs);
  }

  const EMPTY_RUNS: seq<byte> := [0x2e, 0x2e, 0x2e, 0x2f, 0x32, 0x34]  // .../24

  /** It is taken for 0.0.0.0/24. */
  lemma EmptyRunsAreZero()
    ensures exists runs :: IsSplit(EMPTY_RUNS, runs) && !StrictlyInRange(runs)
              && InRange(runs) && ResultOf(runs) == Success([0, 0, 0, 0], MaskOf(24))
  {
    var runs: seq<seq<byte>> := [[], [], [], [], [0x32, 0x34]];
    assert IsSplit(EMPTY_RUNS, runs) by { JoinFive(runs); }
    hide MaskOf, IsSplit;
    assert Value([0x32, 0x34]) == 24 by { TwoDigits(0x32, 0x34); }
    assert InRange(runs) && runs[0] == [];
  }

  lemma JoinFive(r: seq<seq<byte>>)
    requires |r| == 5
    ensures Join(r) == r[0] + [DOT] + r[1] + [DOT] + r[2] + [DOT] + r[3] + [SLASH] + r[4]
  {
    assert r[..4][..3] == r[..3] && r[..3][..2] == r[..2] && r[..2][..1] == r[..1];
    assert Join(r[..1]) == r[0];
    assert Join(r[..2]) == r[0] + [DOT] + r[1];
    assert Join(r[..3]) == Join(r[..2]) + [DOT] + r[2];
    assert Join(r[..4]) == Join(r[..3]) + [DOT] + r[3];
  }

  lemma PrefixValues()
    ensures Value(FOUR_BILLION) == 4294967297
  {
    var s := FOUR_BILLION;
    assert Value(s[..3]) == 429 by { assert s[..3] == [0x34, 0x32, 0x39]; ThreeDigits(s[..3]); }
    FourMore(s, 3);
    FourMore(s, 6);
    assert s[..10] == s && s[..9] == s[..|s| - 1];
  }

  lemma ThreeDigits(s: seq<byte>)
    requires |s| == 3
    ensures Value(s) == (s[0] as int - 0x30) * 100 + (s[1] as int - 0x30) * 10 + (s[2] as int - 0x30)
  {
    assert s[..2][..1] == s[..1] && s[..1][..0] == [];
    assert Value(s[..1]) == s[0] as int - 0x30;
    assert Value(s[..2]) == 10 * Value(s[..1]) + (s[1] as int - 0x30);
  }

  lemma FourMore(s: seq<byte>, k: nat)
    requires k + 3 <= |s|
    ensures Value(s[..k + 3]) == Value(s[..k]) * 1000 + (s[k] as int - 0x30) * 100
                                 + (s[k + 1] as int - 0x30) * 10 + (s[k + 2] as int - 0x30)
  {
    forall j | k <= j < k + 3 ensures Value(s[..j + 1]) == 10 * Value(s[..j]) + (s[j] as int - 0x30) {
      assert s[..j + 1][..j] == s[..j];
    }
  }

  // ---------------------------------------------------------------- printing

  predicate IsAddress(octets: seq<nat>) { |octets| == 4 && forall k | 0 <= k < 4 :: octets[k] <= 255 }

  function PrintedRuns(octets: seq<nat>, n: nat): seq<seq<byte>>
    requires |octets| == 4
  {
    [Decimal(octets[0]), Decimal(octets[1]), Decimal(octets[2]), Decimal(octets[3]), Decimal(n)]
  }

  /** Parsing undoes printing. */
  lemma PrintedParses(octets: seq<nat>, n: nat)
    requires IsAddress(octets) && 1 <= n <= 32
    ensures var runs := PrintedRuns(octets, n);
            IsSplit(Join(runs), runs) && InRange(runs) && ResultOf(runs) == Success(octets, MaskOf(n))
  {
    hide Decimal, Join, FieldValue, AllDigits;
    DecimalField(octets[0]);
    DecimalField(octets[1]);
    DecimalField(octets[2]);
    DecimalField(octets[3]);
    DecimalField(n);
  }

  lemma DecimalField(n: nat)
    requires n < UINT32
    ensures AllDigits(Decimal(n)) && FieldValue(Decimal(n)) == n
  {
    DecimalValue(n);
  }

  // ---------------------------------------------------------------- netmask and broadcast

  /** The 32-bit number of four octets. */
  function Number(o: seq<nat>): nat
    requires |o| == 4
  {
    o[0] * 0x100_0000 + o[1] * 0x1_0000 + o[2] * 0x100 + o[3]
  }

  function Octets(x: nat): (o: seq<nat>)
    requires x < UINT32
    ensures IsAddress(o)
  {
    [x / 0x100_0000 % 0x100, x / 0x1_0000 % 0x100, x / 0x100 % 0x100, x % 0x100]
  }

  lemma OctetsNumber(x: nat)
    requires x < UINT32
    ensures Number(Octets(x)) == x
  {
    var x1, x2, x3 := x / 0x100, x / 0x1_0000, x / 0x100_0000;
    assert x2 == x1 / 0x100 && x3 == x2 / 0x100 && x3 < 0x100;
    assert x == x1 * 0x100 + x % 0x100;
    assert x1 == x2 * 0x100 + x1 % 0x100;
    assert x2 == x3 * 0x100 + x2 % 0x100;
  }

  function BroadcastOf(address: seq<nat>, netmask: seq<nat>): seq<nat>
    requires IsAddress(address) && IsAddress(netmask)
  {
    [BitOr(address[0], 255 - netmask[0]), BitOr(address[1], 255 - netmask[1]),
     BitOr(address[2], 255 - netmask[2]), BitOr(address[3], 255 - netmask[3])]
  }

  class IpConfig {
    var address: seq<nat>
    var netmask: seq<nat>
    var broadcast: seq<nat>

    /** Sets address, netmask and broadcast address from text, or nothing. */
    method SetIPAddress(addr: seq<byte>) returns (ok: bool)
      modifies this
      ensures ok <==> exists runs :: IsSplit(addr, runs) && InRange(runs)
      ensures !ok ==> unchanged(this)
      ensures forall runs | IsSplit(addr, runs) && InRange(runs) ::
                && address == ResultOf(runs).octets
                && netmask == Octets(MaskOf(FieldValue(runs[4])))
                && broadcast == BroadcastOf(address, netmask)
    {
      hide IsSplit, FieldValue, MaskOf, BitOr;
      var r := ParseIPAddressWithSubnet(addr);
      ok := r.Success?;
      if ok {
        ghost var runs :| IsSplit(addr, runs) && InRange(runs);
        assert r == ResultOf(runs);
        address := r.octets;
        var mask := r.mask;
        netmask := [mask / 0x100_0000 % 0x100, mask / 0x1_0000 % 0x100, mask / 0x100 % 0x100, mask % 0x100];
        assert IsAddress(address) && netmask == Octets(mask);
        broadcast := [];
        hide BroadcastOf, Octets;
        BroadcastAt(address, netmask, 0);
        for i := 0 to 4
          invariant address == r.octets && netmask == Octets(r.mask) && IsAddress(address)
          invariant broadcast == BroadcastOf(address, netmask)[..i]
        {
          BroadcastAt(address, netmask, i);
          ghost var whole := BroadcastOf(address, netmask);
          broadcast := broadcast + [BitOr(address[i], 255 - netmask[i])];
          assert whole[..i] + [whole[i]] == whole[..i + 1];
        }
        BroadcastAt(address, netmask, 0);
      }
    }
  }

  lemma MaskIs(n: nat)
    requires 1 <= n <= 32
    ensures Pow2(32 - n) <= UINT32 && MaskOf(n) == UINT32 - Pow2(32 - n)
  {
    var p := Pow2(32 - n);
    if n > 1 { PowIncreases(32 - n, 31); }
    assert Pow2(31) == 0x8000_0000 by { PowTable(); }
    assert (UINT32 - 1) * p == (p - 1) * UINT32 + (UINT32 - p);
    ModMultiple(UINT32 - p, p - 1);
  }

  /** The netmask of length n, octet by octet: the first n bits are set. */
  lemma MaskOctets(n: nat, j: nat)
    requires 1 <= n <= 32 && j < 4
    ensures Octets(MaskOf(n))[j] == if 8 * j + 8 <= n then 255
                                    else if n <= 8 * j then 0
                                    else 256 - Pow2(8 * j + 8 - n)
  {
    var q, r := (32 - n) / 8, (32 - n) % 8;
    assert Pow2(0) == 1;
    MaskIs(n);
    PowParts(q, r);
    hide MaskOf, Pow2, Octets;
    MaskEnds(MaskOf(n), q, Pow2(r));
  }

  lemma PowParts(q: nat, r: nat)
    requires q < 4 && r < 8
    ensures Pow2(8 * q + r) == Pow2(r) * (match q case 0 => 1 case 1 => 0x100 case 2 => 0x1_0000 case _ => 0x100_0000)
    ensures 1 <= Pow2(r) <= 128
  {
    assert Pow2(0) == 1 && Pow2(7) == 128;
    if r < 7 { PowIncreases(r, 7); }
    PowTable();
    PowAdds(8, 8);
    PowAdds(8, 16);
    PowAdds(r, 8 * q);
  }

  /** Where the borrow of a mask ends. */
  lemma MaskEnds(mask: nat, q: nat, p: nat)
    requires q < 4 && 1 <= p <= 128
    requires mask == 0x1_0000_0000 - p * (match q case 0 => 1 case 1 => 0x100 case 2 => 0x1_0000 case _ => 0x100_0000)
    ensures Octets(mask) == match q
                            case 0 => [255, 255, 255, 256 - p]
                            case 1 => [255, 255, 256 - p, 0]
                            case 2 => [255, 256 - p, 0, 0]
                            case _ => [256 - p, 0, 0, 0]
  {
    hide Octets;
    match q
    case 0 => NumberOctets([255, 255, 255, 256 - p]);
    case 1 => NumberOctets([255, 255, 256 - p, 0]);
    case 2 => NumberOctets([255, 256 - p, 0, 0]);
    case _ => NumberOctets([256 - p, 0, 0, 0]);
  }

  lemma NumberOctets(o: seq<nat>)
    requires IsAddress(o)
    ensures Number(o) < UINT32 && Octets(Number(o)) == o
  {
    var a := o[0] * 0x100 + o[1];
    var b := a * 0x100 + o[2];
    assert Number(o) == b * 0x100 + o[3];
    assert Number(o) / 0x100 == b && b / 0x100 == a && a / 0x100 == o[0];
    assert Number(o) / 0x1_0000 == a && Number(o) / 0x100_0000 == o[0];
  }

  /** The last number of the block of `m` numbers that holds `x`. */
  function LastOf(x: nat, m: nat): int
    requires m > 0
  {
    x / m * m + m - 1
  }

  lemma LastHalves(x: nat, m: nat)
    requires m > 0
    ensures LastOf(x, 2 * m) == 1 + 2 * LastOf(x / 2, m)
  {
    DivTwice(x, m);
    var q := x / 2 / m;
    assert q * (2 * m) == 2 * (q * m);
  }

  lemma OrNothing(x: nat)
    ensures BitOr(x, 0) == x == LastOf(x, 1)
  {
  }

  /** Or with the low `k` bits set goes to the end of the block. */
  lemma {:induction false} OrFills(x: nat, k: nat)
    ensures BitOr(x, Pow2(k) - 1) == LastOf(x, Pow2(k))
  {
    hide BitOr, LastOf;
    if k == 0 {
      OrNothing(x);
    } else {
      OrOdd(x, Pow2(k - 1));
      OrFills(x / 2, k - 1);
      LastHalves(x, Pow2(k - 1));
    }
  }

  lemma OrOdd(x: nat, m: nat)
    requires m > 0
    ensures BitOr(x, 2 * m - 1) == 1 + 2 * BitOr(x / 2, m - 1)
  {
    assert (2 * m - 1) / 2 == m - 1 && (2 * m - 1) % 2 == 1;
    if x == 0 {
      assert BitOr(0, m - 1) == m - 1;
    }
  }

  function Scale(x: nat, m: nat): nat { x * m }

  lemma ScaleTwice(x: nat, m: nat)
    ensures Scale(x, 2 * m) == 2 * Scale(x, m)
  {
  }

  /** Or works bit group by bit group. */
  lemma {:induction false} OrSplits(k: nat, x: nat, a: nat, y: nat, b: nat)
    requires a < Pow2(k) && b < Pow2(k)
    ensures BitOr(Scale(x, Pow2(k)) + a, Scale(y, Pow2(k)) + b) == Scale(BitOr(x, y), Pow2(k)) + BitOr(a, b)
    decreases k
  {
    if k > 0 {
      var m := Pow2(k - 1);
      hide BitOr, Scale;
      ScaleTwice(x, m);
      ScaleTwice(y, m);
      ScaleTwice(BitOr(x, y), m);
      OrSplits(k - 1, x, a / 2, y, b / 2);
      OrHalf(2 * Scale(x, m) + a, 2 * Scale(y, m) + b);
      OrHalf(a, b);
    } else {
      assert BitOr(0, 0) == 0;
    }
  }

  lemma OrHalf(x: nat, y: nat)
    ensures BitOr(x, y) == (if x % 2 == 1 || y % 2 == 1 then 1 else 0) + 2 * BitOr(x / 2, y / 2)
  {
  }

  /** The broadcast address, octet by octet: every bit behind the first n is set. */
  lemma BroadcastOctets(address: seq<nat>, n: nat, j: nat)
    requires IsAddress(address) && 1 <= n <= 32 && j < 4
    ensures BroadcastOf(address, Octets(MaskOf(n)))[j]
            == if 8 * j + 8 <= n then address[j]
               else if n <= 8 * j then 255
               else LastOf(address[j], Pow2(8 * j + 8 - n))
  {
    var m := Octets(MaskOf(n));
    MaskOctets(n, j);
    BroadcastAt(address, m, j);
    hide BitOr, MaskOf, Octets, Pow2, LastOf, BroadcastOf;
    if n <= 8 * j {
      OrAll(address[j]);
    } else if n < 8 * j + 8 {
      OrFills(address[j], 8 * j + 8 - n);
    } else {
      OrNothing(address[j]);
    }
  }

  lemma BroadcastAt(address: seq<nat>, netmask: seq<nat>, j: nat)
    requires IsAddress(address) && IsAddress(netmask) && j < 4
    ensures |BroadcastOf(address, netmask)| == 4
    ensures BroadcastOf(address, netmask)[j] == BitOr(address[j], 255 - netmask[j])
  {
    hide BitOr;
  }

  lemma OrAll(x: nat)
    requires x <= 255
    ensures BitOr(x, 255) == 255
  {
    PowTable();
    hide BitOr;
    OrFills(x, 8);
  }

  /** The octet-by-octet or is the or of the 32-bit numbers. */
  lemma OrOfOctets(a: seq<nat>, c: seq<nat>)
    requires IsAddress(a) && IsAddress(c)
    ensures Number([BitOr(a[0], c[0]), BitOr(a[1], c[1]), BitOr(a[2], c[2]), BitOr(a[3], c[3])])
            == BitOr(Number(a), Number(c))
  {
    hide BitOr, Pow2;
    PowTable();
    OrSplits(8, a[0], a[1], c[0], c[1]);
    OrSplits(8, a[0] * 0x100 + a[1], a[2], c[0] * 0x100 + c[1], c[2]);
    OrSplits(8, (a[0] * 0x100 + a[1]) * 0x100 + a[2], a[3], (c[0] * 0x100 + c[1]) * 0x100 + c[2], c[3]);
  }

  /** For prefix length `n`, the addresses that share the prefix are exactly the 2^(32-n) numbers of
      one block, and the broadcast address is the last of them. */
  lemma BroadcastIsLast(address: seq<nat>, n: nat, other: nat)
    requires IsAddress(address) && 1 <= n <= 32
    ensures MaskOf(n) < UINT32
    ensures var size := Pow2(32 - n);
            var prefix := Number(address) / size;
            && Number(BroadcastOf(address, Octets(MaskOf(n)))) == LastOf(Number(address), size)
            && (other / size == prefix <==>
                LastOf(Number(address), size) - size < other <= LastOf(Number(address), size))
  {
    hide BitOr, MaskOf, Octets, Pow2, Number;
    var size := Pow2(32 - n);
    MaskIs(n);
    OctetsNumber(MaskOf(n));
    var m := Octets(MaskOf(n));
    var c := [255 - m[0], 255 - m[1], 255 - m[2], 255 - m[3]];
    Complement(m, c);
    OrOfOctets(address, c);
    hide LastOf;
    OrFills(Number(address), 32 - n);
    InBlock(other, Number(address), size);
  }

  lemma Complement(m: seq<nat>, c: seq<nat>)
    requires IsAddress(m) && |c| == 4 && forall k | 0 <= k < 4 :: c[k] == 255 - m[k]
    ensures Number(c) == UINT32 - 1 - Number(m)
  {
  }

  lemma InBlock(x: nat, y: nat, size: nat)
    requires size > 0
    ensures x / size == y / size <==> LastOf(y, size) - size < x <= LastOf(y, size)
  {
    Block(x, y / size, size);
  }

  lemma Block(x: nat, p: nat, size: nat)
    requires size > 0
    ensures x / size == p <==> p * size <= x < p * size + size
  {
    DivCovers(x, size);
    if p * size <= x < p * size + size {
      DivOf(p, size, x - p * size);
    }
  }
}
