/** The bootloader's decision at reset, over the application partition, the key-value store and the
    battery-backed state. */
module Bootloader {
  import opened Bytes
  import opened Options

  const BUILD_ID_HEADER: seq<byte> := [4, 0, 0, 0, 0x14, 0, 0, 0, 3, 0, 0, 0, 0x47, 0x4e, 0x55, 0]
  const BUILD_ID_SIZE := 36
  const BUILD_ID_HEX_SIZE := 41

  // ---------------------------------------------------------------- build IDs

  function Hex(n: nat): (c: byte)
    requires n < 16
    ensures c != 0
  {
    if n < 10 then 0x30 + n else 0x61 + n - 10
  }

  lemma HexInjective(m: nat, n: nat)
    requires m < 16 && n < 16 && Hex(m) == Hex(n)
    ensures m == n
  {
  }

  /** The hex digits of the id bytes, most significant digit of each byte first, and a NUL. */
  function FormattedID(buildID: seq<byte>): (s: seq<byte>)
    requires |buildID| == BUILD_ID_SIZE
    ensures |s| == BUILD_ID_HEX_SIZE && s[40] == 0 && forall i | 0 <= i < 40 :: s[i] != 0
  {
    seq(BUILD_ID_HEX_SIZE, k requires 0 <= k < BUILD_ID_HEX_SIZE =>
      if k == 40 then 0
      else if k % 2 == 0 then Hex(buildID[16 + k / 2] / 16) else Hex(buildID[16 + k / 2] % 16))
  }

  /** A lower-case hexadecimal digit, and its value. */
  predicate IsHexDigit(c: byte) { '0' as int <= c <= '9' as int || 'a' as int <= c <= 'f' as int }

  function HexValue(c: byte): int { if c <= '9' as int then c - '0' as int else c - 'a' as int + 10 }

  /** Two characters that spell a byte, most significant digit first. */
  predicate Spells(d: byte, e: byte, b: byte) {
    IsHexDigit(d) && IsHexDigit(e) && 16 * HexValue(d) + HexValue(e) == b
  }

  /** The text spells the 20 bytes of the id in order. */
  lemma FormatReadsBack(buildID: seq<byte>, i: nat)
    requires |buildID| == BUILD_ID_SIZE && i < 20
    ensures Spells(FormattedID(buildID)[2 * i], FormattedID(buildID)[2 * i + 1], buildID[16 + i])
  {
    assert (2 * i) / 2 == i && (2 * i + 1) / 2 == i && (2 * i) % 2 == 0 && (2 * i + 1) % 2 == 1;
  }

  method FormatBuildID(buildID: seq<byte>, strOut: array<byte>)
    requires |buildID| == BUILD_ID_SIZE && strOut.Length == BUILD_ID_HEX_SIZE
    modifies strOut
    ensures strOut[..] == FormattedID(buildID)
    ensures forall i | 0 <= i < 20 :: Spells(strOut[2 * i], strOut[2 * i + 1], buildID[16 + i])
    ensures strOut[40] == 0
  {
    for i := 0 to 20
      invariant forall k | 0 <= k < 2 * i :: strOut[k] == FormattedID(buildID)[k]
    {
      strOut[2 * i] := Hex(buildID[16 + i] / 16);
      strOut[2 * i + 1] := Hex(buildID[16 + i] % 16);
      assert (2 * i) / 2 == (2 * i + 1) / 2 == i;
    }
    strOut[40] := 0;
    forall i | 0 <= i < 20 ensures Spells(strOut[2 * i], strOut[2 * i + 1], buildID[16 + i]) {
      FormatReadsBack(buildID, i);
    }
  }

  /** Two formatted ids are equal only when the 20 id bytes are. */
  lemma FormatInjective(a: seq<byte>, b: seq<byte>)
    requires |a| == |b| == BUILD_ID_SIZE
    ensures FormattedID(a) == FormattedID(b) <==> a[16..] == b[16..]
  {
    if FormattedID(a) == FormattedID(b) {
      forall i | 0 <= i < 20 ensures a[16..][i] == b[16..][i] {
        assert FormattedID(a)[2 * i] == FormattedID(b)[2 * i];
        assert FormattedID(a)[2 * i + 1] == FormattedID(b)[2 * i + 1];
        assert (2 * i) / 2 == (2 * i + 1) / 2 == i;
        HexInjective(a[16 + i] / 16, b[16 + i] / 16);
        HexInjective(a[16 + i] % 16, b[16 + i] % 16);
      }
      assert a[16..] == b[16..];
    }
    if a[16..] == b[16..] { FormatDetermined(a, b); }
  }

  lemma FormatDetermined(a: seq<byte>, b: seq<byte>)
    requires |a| == |b| == BUILD_ID_SIZE && a[16..] == b[16..]
    ensures FormattedID(a) == FormattedID(b)
  {
    forall k | 0 <= k < BUILD_ID_HEX_SIZE ensures FormattedID(a)[k] == FormattedID(b)[k] {
      if k < 40 { assert a[16..][k / 2] == b[16..][k / 2]; }
    }
  }

  /** strcmp against a stored version of the right length sees the whole id. */
  lemma CompareIsEquality(a: seq<byte>, b: seq<byte>)
    requires |a| == BUILD_ID_SIZE && |b| == BUILD_ID_HEX_SIZE
    ensures CString(FormattedID(a)) == FormattedID(a)[..40]
    ensures CString(b) == CString(FormattedID(a)) ==> b == FormattedID(a)
  {
    var s := FormattedID(a);
    assert |CString(s)| < |s|;
    assert s[|CString(s)|] == 0;
    assert CString(s) == s[..40];
    if CString(b) == CString(s) {
      assert b[..40] == s[..40];
      assert b[40] == 0;
      assert b == b[..40] + [b[40]] && s == s[..40] + [s[40]];
    }
  }

  // ---------------------------------------------------------------- the decision

  /** The partition as far as it matters: whether its first word is blank, its build-id block, and
      its checksum. */
  datatype Partition = Partition(blank: bool, buildID: seq<byte>, crc: nat)

  /** The two objects the bootloader keeps. */
  datatype Store = Store(version: Option<seq<byte>>, crc: Option<nat>)

  predicate HasBuildID(p: Partition) {
    |p.buildID| == BUILD_ID_SIZE && p.buildID[..16] == BUILD_ID_HEADER
  }

  /** The image has a build id other than the stored one, or none is stored. */
  predicate Updated(p: Partition, kvs: Store) {
    HasBuildID(p)
    && !(kvs.version.Some? && |kvs.version.value| == BUILD_ID_HEX_SIZE
         && CString(kvs.version.value) == CString(FormattedID(p.buildID)))
  }

  /** The checksum has to be taken on trust: a new image, or none stored to compare with. */
  predicate Trusted(p: Partition, kvs: Store) { Updated(p, kvs) || kvs.crc == None }

  function Recorded(p: Partition): Store
    requires |p.buildID| == BUILD_ID_SIZE
  {
    Store(Some(FormattedID(p.buildID)), Some(p.crc))
  }

  datatype Reason = PowerOn | AppRan | DfuRequested | Crashed | Unknown

  datatype Verdict = Launch | Dfu

  class Boot {
    /** The partition is read-only here; the store and the saved state change. */
    var partition: Partition
    var kvs: Store
    var reason: Reason

    constructor (partition: Partition, kvs: Store, reason: Reason)
      requires |partition.buildID| == BUILD_ID_SIZE
      ensures this.partition == partition && this.kvs == kvs && this.reason == reason
    {
      this.partition, this.kvs, this.reason := partition, kvs, reason;
    }

    method IsAppUpdated() returns (updated: bool)
      requires |partition.buildID| == BUILD_ID_SIZE
      ensures updated == Updated(partition, kvs)
    {
      if partition.buildID[..16] != BUILD_ID_HEADER { return false; }
      var hex := new byte[BUILD_ID_HEX_SIZE];
      FormatBuildID(partition.buildID, hex);
      if kvs.version.Some? && |kvs.version.value| == BUILD_ID_HEX_SIZE {
        if CString(kvs.version.value) != CString(hex[..]) { return true; }
      } else {
        return true;
      }
      updated := false;
    }

    /** Validates the partition; a trusted image has its id and checksum stored. A failed write is
        only logged. */
    method ValidateAppPartition(versionOk: bool, crcOk: bool) returns (valid: bool)
      requires |partition.buildID| == BUILD_ID_SIZE
      modifies this`kvs
      ensures valid == (!partition.blank && (Trusted(partition, old(kvs)) || old(kvs).crc == Some(partition.crc)))
      ensures kvs == if partition.blank || !Trusted(partition, old(kvs)) then old(kvs)
                     else Store(if versionOk then Recorded(partition).version else old(kvs).version,
                                if crcOk then Recorded(partition).crc else old(kvs).crc)
    {
      if partition.blank { return false; }
      var expectedCRC := 0;
      var updatedViaJtag := IsAppUpdated();
      if !updatedViaJtag {
        if kvs.crc == None {
          updatedViaJtag := true;
        } else {
          expectedCRC := kvs.crc.value;
        }
      }
      var crc := partition.crc;
      if updatedViaJtag {
        var firmwareVer := new byte[BUILD_ID_HEX_SIZE];
        FormatBuildID(partition.buildID, firmwareVer);
        if versionOk { kvs := kvs.(version := Some(firmwareVer[..])); }
        if crcOk { kvs := kvs.(crc := Some(crc)); }
        return true;
      }
      valid := crc == expectedCRC;
    }

    /** What happens at reset. Launching the application marks it as running. */
    method MainLoop(versionOk: bool, crcOk: bool) returns (verdict: Verdict)
      requires |partition.buildID| == BUILD_ID_SIZE
      modifies this`kvs, this`reason
      ensures (verdict, kvs) == Reset(partition, old(kvs), old(reason), versionOk, crcOk)
      ensures reason == if verdict == Launch then AppRan else old(reason)
      ensures verdict == Launch && crcOk ==> kvs.crc == Some(partition.crc)
    {
      if reason == DfuRequested { return Dfu; }
      if reason == Crashed {
        var updated := IsAppUpdated();
        if !updated { return Dfu; }
      }
      var valid := ValidateAppPartition(versionOk, crcOk);
      if !valid { return Dfu; }
      reason := AppRan;
      verdict := Launch;
    }
  }

  /** The decision and the store after it, as a function. */
  function Reset(p: Partition, kvs: Store, reason: Reason, versionOk: bool, crcOk: bool): (Verdict, Store)
    requires |p.buildID| == BUILD_ID_SIZE
  {
    if reason == DfuRequested || (reason == Crashed && !Updated(p, kvs)) || p.blank then (Dfu, kvs)
    else if Trusted(p, kvs) then
      (Launch, Store(if versionOk then Recorded(p).version else kvs.version,
                     if crcOk then Recorded(p).crc else kvs.crc))
    else (if kvs.crc == Some(p.crc) then Launch else Dfu, kvs)
  }

  /** The decision in full: firmware update when it was asked for or nothing is there; after a crash only for
      another build id; and otherwise a launch if the id is new, or no checksum is stored, or it agrees. A
      launch of the first two kinds stores id and checksum; nothing else is written. */
  lemma ResetExactly(p: Partition, kvs: Store, reason: Reason)
    requires |p.buildID| == BUILD_ID_SIZE
    ensures var isNew := p.buildID[..16] == [4, 0, 0, 0, 20, 0, 0, 0, 3, 0, 0, 0] + Text("GNU") + [0]
                         && kvs.version != Some(FormattedID(p.buildID));
            var (verdict, kvs') := Reset(p, kvs, reason, true, true);
            && (verdict == Launch <==>
                  !p.blank && reason != DfuRequested && (reason == Crashed ==> isNew)
                  && (isNew || kvs.crc == None || kvs.crc == Some(p.crc)))
            && kvs' == if verdict == Launch && (isNew || kvs.crc == None)
                       then Store(Some(FormattedID(p.buildID)), Some(p.crc)) else kvs
  {
    assert Text("GNU") == [0x47, 0x4e, 0x55];
    CompareIsEquality(p.buildID, FormattedID(p.buildID));
    if kvs.version.Some? && |kvs.version.value| == BUILD_ID_HEX_SIZE {
      CompareIsEquality(p.buildID, kvs.version.value);
    }
    hide FormattedID, CString;
  }

  // ---------------------------------------------------------------- over runs of resets

  /** Every reset may find another image and another reason. */
  datatype Event = Event(partition: Partition, reason: Reason)

  predicate Sane(events: seq<Event>) { forall e <- events :: |e.partition.buildID| == BUILD_ID_SIZE }

  /** One reset of a run in which every write succeeds. */
  function ResetOn(kvs: Store, e: Event): (Verdict, Store)
    requires |e.partition.buildID| == BUILD_ID_SIZE
  {
    Reset(e.partition, kvs, e.reason, true, true)
  }

  /** The store after a run. */
  function After(kvs: Store, events: seq<Event>): Store
    requires Sane(events)
    decreases |events|
  {
    if events == [] then kvs else
      var n := |events| - 1;
      assert events[n] in events;
      ResetOn(After(kvs, events[..n]), events[n]).1
  }

  /** The `i`th reset of a run launches its image. */
  predicate Launches(kvs: Store, events: seq<Event>, i: nat)
    requires Sane(events) && i < |events|
  {
    assert events[i] in events;
    ResetOn(After(kvs, events[..i]), events[i]).0 == Launch
  }

  /** The `i`th reset is the last one that launches an image. */
  predicate LastLaunch(kvs: Store, events: seq<Event>, i: nat)
    requires Sane(events)
  {
    i < |events| && Launches(kvs, events, i) && forall j | i < j < |events| :: !Launches(kvs, events, j)
  }

  /** What one launch leaves, whatever was stored: the checksum, and the id if the image has one. */
  lemma LaunchStores(kvs: Store, p: Partition, reason: Reason)
    requires |p.buildID| == BUILD_ID_SIZE
    requires Reset(p, kvs, reason, true, true).0 == Launch
    ensures var kvs' := Reset(p, kvs, reason, true, true).1;
            !p.blank && kvs'.crc == Some(p.crc) && (HasBuildID(p) ==> kvs' == Recorded(p))
  {
    if !Trusted(p, kvs) && HasBuildID(p) {
      CompareIsEquality(p.buildID, kvs.version.value);
    }
  }

  /** Over every run, from every store: however many resets that end in firmware update have followed
      the last launch, the store still describes the image it launched. */
  lemma {:induction false} StoreFollowsLaunch(kvs: Store, events: seq<Event>, i: nat)
    requires Sane(events) && LastLaunch(kvs, events, i)
    ensures var p, kvs' := events[i].partition, After(kvs, events);
            && events[i] in events && !p.blank
            && kvs'.crc == Some(p.crc) && (HasBuildID(p) ==> kvs' == Recorded(p))
    decreases |events|
  {
    var n := |events| - 1;
    hide Reset, FormattedID;
    assert events[n] in events && events[i] in events;
    if i == n {
      LaunchStores(After(kvs, events[..n]), events[n].partition, events[n].reason);
    } else {
      assert !Launches(kvs, events, n);
      DfuKeepsStore(After(kvs, events[..n]), events[n]);
      LaunchBefore(kvs, events, i);
      StoreFollowsLaunch(kvs, events[..n], i);
    }
  }

  lemma DfuKeepsStore(kvs: Store, e: Event)
    requires |e.partition.buildID| == BUILD_ID_SIZE && ResetOn(kvs, e).0 == Dfu
    ensures ResetOn(kvs, e).1 == kvs
  {
  }

  lemma LaunchBefore(kvs: Store, events: seq<Event>, i: nat)
    requires Sane(events) && LastLaunch(kvs, events, i) && i < |events| - 1
    ensures Sane(events[..|events| - 1]) && LastLaunch(kvs, events[..|events| - 1], i)
  {
    hide Reset, After;
    var n := |events| - 1;
    forall j | 0 <= j < n ensures Launches(kvs, events[..n], j) == Launches(kvs, events, j) {
      assert events[..n][..j] == events[..j];
    }
  }

  /** After any run, the image launched last is launched again at an ordinary reset, and nothing is
      written. */
  lemma UnchangedRelaunches(kvs: Store, events: seq<Event>, i: nat, next: Reason)
    requires Sane(events) && LastLaunch(kvs, events, i)
    requires next != DfuRequested && next != Crashed
    ensures events[i] in events
    ensures var p, kvs' := events[i].partition, After(kvs, events);
            Reset(p, kvs', next, true, true) == (Launch, kvs') && !Trusted(p, kvs')
  {
    StoreFollowsLaunch(kvs, events, i);
    var p := events[i].partition;
    CompareIsEquality(p.buildID, FormattedID(p.buildID));
  }

  /** After any run, the build id of the image launched last with another checksum is corruption:
      firmware update, whatever the reason for the reset. */
  lemma CorruptedGoesToDfu(kvs: Store, events: seq<Event>, i: nat, q: Partition, next: Reason)
    requires Sane(events) && LastLaunch(kvs, events, i) && HasBuildID(events[i].partition) && HasBuildID(q)
    requires q.buildID[16..] == events[i].partition.buildID[16..] && q.crc != events[i].partition.crc
    ensures Reset(q, After(kvs, events), next, true, true) == (Dfu, After(kvs, events))
  {
    StoreFollowsLaunch(kvs, events, i);
    FormatInjective(events[i].partition.buildID, q.buildID);
  }

  /** After a crash, whatever is stored, the application runs only if its build id is not the stored one. */
  lemma CrashedNeedsNewImage(kvs: Store, p: Partition)
    requires |p.buildID| == BUILD_ID_SIZE
    ensures Reset(p, kvs, Crashed, true, true).0 == Launch <==>
              !p.blank && HasBuildID(p) && kvs.version != Some(FormattedID(p.buildID))
  {
    CompareIsEquality(p.buildID, FormattedID(p.buildID));
    if kvs.version.Some? && |kvs.version.value| == BUILD_ID_HEX_SIZE {
      CompareIsEquality(p.buildID, kvs.version.value);
    }
  }

  /** No boot loop: after any run, a crash is followed by a launch exactly if the image now present has
      a build id other than that of the image launched last. */
  lemma NoCrashLoop(kvs: Store, events: seq<Event>, i: nat, q: Partition)
    requires Sane(events) && LastLaunch(kvs, events, i) && HasBuildID(events[i].partition)
    requires |q.buildID| == BUILD_ID_SIZE
    ensures Reset(q, After(kvs, events), Crashed, true, true).0 == Launch <==>
              !q.blank && HasBuildID(q) && q.buildID[16..] != events[i].partition.buildID[16..]
  {
    StoreFollowsLaunch(kvs, events, i);
    CrashedNeedsNewImage(After(kvs, events), q);
    FormatInjective(events[i].partition.buildID, q.buildID);
  }

  /** Store writes may fail. A launched image is then refused at the next ordinary reset exactly when
      it was new and its id was stored but its checksum was not, over the checksum of another image. */
  lemma RelaunchAfterWrites(kvs: Store, p: Partition, reason: Reason, versionOk: bool, crcOk: bool, next: Reason)
    requires |p.buildID| == BUILD_ID_SIZE && next != DfuRequested && next != Crashed
    requires Reset(p, kvs, reason, versionOk, crcOk).0 == Launch
    ensures var kvs' := Reset(p, kvs, reason, versionOk, crcOk).1;
            Reset(p, kvs', next, true, true).0 == Dfu <==>
              Updated(p, kvs) && versionOk && !crcOk && kvs.crc.Some? && kvs.crc.value != p.crc
  {
    CompareIsEquality(p.buildID, FormattedID(p.buildID));
  }

  /** An image with checksum 2 over a store that holds checksum 1 and no version. */
  lemma GoodImageRefused(id: seq<byte>)
    requires |id| == 20
    ensures var p, kvs := Partition(false, BUILD_ID_HEADER + id, 2), Store(None, Some(1));
            var (verdict, kvs') := Reset(p, kvs, PowerOn, true, false);
            verdict == Launch && Reset(p, kvs', AppRan, true, true).0 == Dfu
  {
    RelaunchAfterWrites(Store(None, Some(1)), Partition(false, BUILD_ID_HEADER + id, 2), PowerOn, true, false, AppRan);
  }
}
