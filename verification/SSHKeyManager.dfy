/** The table of authorised SSH keys: slots scanned and changed in place, kept in the key-value store. */
module SSHKeyManager {
  import opened Bytes
  import opened Decimals

  const KEY_SIZE := 32
  const NAME_LEN := 30

  /** An entry: unused when its nickname is empty. */
  datatype Slot = Slot(pubkey: seq<byte>, nickname: seq<byte>)

  const ZERO_KEY: seq<byte> := [
    0, 0, 0, 0, 0, 0, 0, 0, 0, 0, 0, 0, 0, 0, 0, 0,
    0, 0, 0, 0, 0, 0, 0, 0, 0, 0, 0, 0, 0, 0, 0, 0]
  const EMPTY := Slot(ZERO_KEY, [])

  predicate Used(s: Slot) { s.nickname != [] }

  /** A key a client can have: not all zeros, the value that marks cleared memory. */
  predicate ProperKey(key: seq<byte>) { |key| == KEY_SIZE && key != ZERO_KEY }

  /** strncpy with room for NAME_LEN characters. */
  function Truncated(desc: seq<byte>): (s: seq<byte>)
    ensures s <= desc && |s| <= NAME_LEN && (desc != [] ==> s != [])
  {
    if |desc| <= NAME_LEN then desc else desc[..NAME_LEN]
  }

  /** A slot that holds a proper key under a short name, or is cleared. */
  predicate SlotOk(s: Slot) {
    if Used(s) then ProperKey(s.pubkey) && |s.nickname| <= NAME_LEN else s == EMPTY
  }

  /** Unused slots are cleared, used ones hold proper keys, and no two hold the same key. */
  predicate Tidy(slots: seq<Slot>) {
    && (forall i | 0 <= i < |slots| :: SlotOk(slots[i]))
    && (forall i, j | 0 <= i < j < |slots| :: Used(slots[i]) && Used(slots[j]) ==> slots[i].pubkey != slots[j].pubkey)
  }

  /** Slot `i` holds `key`. */
  predicate HeldAt(slots: seq<Slot>, key: seq<byte>, i: int) {
    0 <= i < |slots| && Used(slots[i]) && slots[i].pubkey == key
  }

  /** The table as a map from key to nickname. */
  function Table(slots: seq<Slot>): map<seq<byte>, seq<byte>> {
    if slots == [] then map[] else
      var s := slots[|slots| - 1];
      var m := Table(slots[..|slots| - 1]);
      if Used(s) then m[s.pubkey := s.nickname] else m
  }

  ghost predicate Held(slots: seq<Slot>, key: seq<byte>) { exists i :: HeldAt(slots, key, i) }

  /** `m` lists the used slots: every key once, with its nickname. */
  ghost predicate Lists(m: map<seq<byte>, seq<byte>>, slots: seq<Slot>) {
    && (forall key :: key in m <==> Held(slots, key))
    && (forall i | 0 <= i < |slots| && Used(slots[i]) ::
          slots[i].pubkey in m && m[slots[i].pubkey] == slots[i].nickname)
  }

  lemma ListsUnique(m: map<seq<byte>, seq<byte>>, n: map<seq<byte>, seq<byte>>, slots: seq<Slot>)
    requires Lists(m, slots) && Lists(n, slots)
    ensures m == n
  {
    forall key | key in m ensures m[key] == n[key] {
      var i :| HeldAt(slots, key, i);
    }
  }

  /** One more slot at the end. */
  lemma ListsSnoc(m: map<seq<byte>, seq<byte>>, slots: seq<Slot>, s: Slot)
    requires Lists(m, slots) && Tidy(slots + [s])
    ensures Lists(if Used(s) then m[s.pubkey := s.nickname] else m, slots + [s])
  {
    hide SlotOk;
    var t, n := slots + [s], |slots|;
    var m' := if Used(s) then m[s.pubkey := s.nickname] else m;
    assert forall i | 0 <= i < n :: t[i] == slots[i];
    forall key ensures key in m' <==> Held(t, key) {
      if key in m {
        var i :| HeldAt(slots, key, i);
        assert HeldAt(t, key, i);
      }
      if Used(s) { assert HeldAt(t, s.pubkey, n); }
      if i :| HeldAt(t, key, i) {
        if i < n { assert HeldAt(slots, key, i); }
      }
    }
    forall i | 0 <= i <= n && Used(t[i]) ensures t[i].pubkey in m' && m'[t[i].pubkey] == t[i].nickname {
      if i < n {
        assert t[i] == slots[i];
        if Used(s) { assert t[n] == s; }
      }
    }
  }

  lemma {:induction false} TableLists(slots: seq<Slot>)
    requires Tidy(slots)
    ensures Lists(Table(slots), slots)
  {
    hide SlotOk, Lists;
    if slots == [] {
      NothingListed();
    } else {
      var init, s := slots[..|slots| - 1], slots[|slots| - 1];
      assert slots == init + [s];
      TableLists(init);
      ListsSnoc(Table(init), init, s);
    }
  }

  lemma NothingListed()
    ensures Lists(map[], [])
  {
  }

  lemma SetIsTidy(slots: seq<Slot>, k: nat, s: Slot)
    requires Tidy(slots) && k < |slots| && SlotOk(s)
    requires forall i | 0 <= i < |slots| && i != k :: !(Used(s) && HeldAt(slots, s.pubkey, i))
    ensures Tidy(slots[k := s])
  {
    hide SlotOk;
    var t := slots[k := s];
    forall i, j | 0 <= i < j < |t| && Used(t[i]) && Used(t[j]) ensures t[i].pubkey != t[j].pubkey {
      if i == k { assert !HeldAt(slots, s.pubkey, j); }
      if j == k { assert !HeldAt(slots, s.pubkey, i); }
    }
  }

  /** Writing one slot, with a key no other slot holds. */
  lemma TableSet(slots: seq<Slot>, k: nat, s: Slot)
    requires Tidy(slots) && k < |slots| && Used(s) && SlotOk(s)
    requires forall i | 0 <= i < |slots| && i != k :: !HeldAt(slots, s.pubkey, i)
    requires Used(slots[k]) ==> slots[k].pubkey == s.pubkey
    ensures Tidy(slots[k := s])
    ensures Table(slots[k := s]) == Table(slots)[s.pubkey := s.nickname]
  {
    hide SlotOk, Table, Tidy;
    var t, m := slots[k := s], Table(slots)[s.pubkey := s.nickname];
    SetIsTidy(slots, k, s);
    TableLists(slots);
    TableLists(t);
    forall key ensures key in m <==> Held(t, key) {
      assert HeldAt(t, s.pubkey, k);
      if i :| HeldAt(slots, key, i) { assert i != k ==> HeldAt(t, key, i); }
      if i :| HeldAt(t, key, i) { assert i != k ==> HeldAt(slots, key, i); }
    }
    forall i | 0 <= i < |t| && Used(t[i]) ensures t[i].pubkey in m && m[t[i].pubkey] == t[i].nickname {
      if i != k { assert !HeldAt(slots, s.pubkey, i); }
    }
    ListsUnique(Table(t), m, t);
  }

  /** Clearing one slot. */
  lemma TableCleared(slots: seq<Slot>, k: nat)
    requires Tidy(slots) && k < |slots|
    ensures Tidy(slots[k := EMPTY])
    ensures Table(slots[k := EMPTY]) == if Used(slots[k]) then Table(slots) - {slots[k].pubkey} else Table(slots)
  {
    var t := slots[k := EMPTY];
    var m := if Used(slots[k]) then Table(slots) - {slots[k].pubkey} else Table(slots);
    SetIsTidy(slots, k, EMPTY);
    hide SlotOk, Table;
    TableLists(slots);
    TableLists(t);
    forall key ensures key in m <==> Held(t, key) {
      if i :| HeldAt(slots, key, i) { assert i != k ==> HeldAt(t, key, i); }
      if i :| HeldAt(t, key, i) { assert HeldAt(slots, key, i); }
    }
    ListsUnique(Table(t), m, t);
  }

  // ---------------------------------------------------------------- the store

  /** Names "ssh.authkey00" to "ssh.authkey99". */
  function KeyName(i: nat): seq<byte>
    requires i < 100
  {
    [0x73, 0x73, 0x68, 0x2e, 0x61, 0x75, 0x74, 0x68, 0x6b, 0x65, 0x79, 0x30 + i / 10, 0x30 + i % 10]
  }

  /** "ssh.authkey" and the number in two decimal digits. */
  lemma NameIs(i: nat)
    requires i < 100
    ensures var name := KeyName(i);
            && |name| == 13 && name[..11] == Text("ssh.authkey")
            && AllDigits(name[11..]) && Value(name[11..]) == i
  {
    var name, digits := KeyName(i), KeyName(i)[11..];
    forall k | 0 <= k < 11 ensures name[..11][k] == Text("ssh.authkey")[k] {}
    assert digits == [name[11], name[12]];
    TwoDigits(name[11], name[12]);
  }

  lemma NamesDiffer(i: nat, j: nat)
    requires i < 100 && j < 100 && KeyName(i) == KeyName(j)
    ensures i == j
  {
    assert KeyName(i)[11] == KeyName(j)[11] && KeyName(i)[12] == KeyName(j)[12];
  }

  type Kvs = map<seq<byte>, Slot>

  /** StoreObjectIfNecessary: an object that is missing counts as having the default value. */
  function StoreIfNecessary(kvs: Kvs, name: seq<byte>, value: Slot, default: Slot): Kvs {
    if (if name in kvs then kvs[name] else default) == value then kvs else kvs[name := value]
  }

  /** Slots 0..n-1 read back as they are. */
  predicate Stored(kvs: Kvs, slots: seq<Slot>, n: nat)
    requires n <= |slots| <= 100
  {
    forall i | 0 <= i < n :: (if KeyName(i) in kvs then kvs[KeyName(i)] else EMPTY) == slots[i]
  }

  predicate IsSlotName(name: seq<byte>, n: nat)
    requires n <= 100
  {
    exists i | 0 <= i < n :: name == KeyName(i)
  }

  lemma NamesSlot(i: nat, n: nat)
    requires i < n <= 100
    ensures IsSlotName(KeyName(i), n)
  {
  }

  predicate SameObject(before: Kvs, after: Kvs, name: seq<byte>) {
    (name in after <==> name in before) && (name in before ==> after[name] == before[name])
  }

  /** A slot without a nickname is cleared altogether. */
  function Cleaned(s: Slot): Slot { if Used(s) then s else EMPTY }

  lemma TidyIsClean(slots: seq<Slot>)
    requires Tidy(slots)
    ensures forall i | 0 <= i < |slots| :: Cleaned(slots[i]) == slots[i]
  {
  }

  class KeyManager {
    const slots: array<Slot>
    var kvs: Kvs

    predicate Valid()
      reads slots
    {
      slots.Length <= 100 && Tidy(slots[..])
    }

    constructor (maxKeys: nat, kvs: Kvs)
      requires maxKeys <= 100
      ensures Valid() && fresh(slots) && slots.Length == maxKeys && this.kvs == kvs
      ensures Table(slots[..]) == map[]
    {
      slots := new Slot[maxKeys](_ => EMPTY);
      this.kvs := kvs;
      new;
      TableLists(slots[..]);
    }

    /** Adds a key or renames it, in the slot the two scans of the source agree on. */
    method AddPublicKey(key: seq<byte>, desc: seq<byte>) returns (ok: bool, ghost target: int)
      requires |key| == 32
      modifies slots
      ensures IsTarget(old(slots[..]), key, target) && ok == (target >= 0)
      ensures slots[..] == if ok then old(slots[..])[target := Slot(key, Truncated(desc))] else old(slots[..])
      ensures old(Valid()) && ProperKey(key) && desc != [] ==>
                && Valid()
                && (ok <==> key in Table(old(slots[..])) || FirstFree(old(slots[..])) < slots.Length)
                && Table(slots[..]) == if ok then Table(old(slots[..]))[key := Truncated(desc)]
                                       else Table(old(slots[..]))
      ensures ok ==> slots[target].nickname == if |desc| <= 30 then desc else desc[..30]
      ensures ok && old(Valid()) && ProperKey(key) && desc != [] ==>
                key in Table(slots[..]) && Table(slots[..])[key] == if |desc| <= 30 then desc else desc[..30]
    {
      hide Tidy, Table;
      if old(Valid()) && ProperKey(key) && desc != [] { AddRefines(slots[..], key, Truncated(desc)); }
      var foundFree, freeSlot := false, 0;
      ok, target := false, -1;
      for i := 0 to slots.Length
        invariant slots[..] == old(slots[..]) && !ok && target == -1
        invariant foundFree ==> freeSlot == FirstFree(slots[..]) < i
        invariant !foundFree ==> FirstFree(slots[..]) >= i
        invariant forall j | 0 <= j < i && j != FirstFree(slots[..]) :: slots[j].pubkey != key
      {
        if !foundFree && !Used(slots[i]) {
          foundFree, freeSlot := true, i;
          continue;
        }
        if slots[i].pubkey == key {
          slots[i] := Slot(key, Truncated(desc));
          ok, target := true, i;
          assert slots[..] == old(slots[..])[i := Slot(key, Truncated(desc))];
          return;
        }
      }
      if foundFree {
        slots[freeSlot] := Slot(key, Truncated(desc));
        ok, target := true, freeSlot;
        assert slots[..] == old(slots[..])[freeSlot := Slot(key, Truncated(desc))];
      }
    }

    /** Empties a slot; a number outside the table does nothing. */
    method RemovePublicKey(slot: int)
      modifies slots
      ensures slots[..] == if 0 <= slot < slots.Length then old(slots[..])[slot := EMPTY] else old(slots[..])
      ensures old(Valid()) ==>
                && Valid()
                && Table(slots[..]) == if 0 <= slot < slots.Length && old(Used(slots[slot]))
                                       then Table(old(slots[..])) - {old(slots[slot].pubkey)} else Table(old(slots[..]))
    {
      if 0 <= slot < slots.Length {
        if Valid() { TableCleared(slots[..], slot); }
        slots[slot] := EMPTY;
        assert slots[..] == old(slots[..])[slot := EMPTY];
      }
    }

    /** The first slot whose key bytes match, or -1: on a tidy table, the slot of an authorised key. */
    method FindKey(search: seq<byte>) returns (slot: int)
      requires |search| == 32
      ensures -1 <= slot < slots.Length
      ensures slot >= 0 ==> slots[slot].pubkey == search
      ensures forall j | 0 <= j < (if slot < 0 then slots.Length else slot) :: slots[j].pubkey != search
      ensures Valid() && ProperKey(search) ==> (slot >= 0 <==> search in Table(slots[..]))
      ensures Valid() && ProperKey(search) && slot >= 0 ==> HeldAt(slots[..], search, slot)
    {
      if Valid() && ProperKey(search) { LookupIsMatch(slots[..], search); }
      for i := 0 to slots.Length
        invariant forall j | 0 <= j < i :: slots[j].pubkey != search
      {
        if slots[i].pubkey == search { return i; }
      }
      slot := -1;
    }

    /** Clears the unused slots and stores what differs from the store; an unused slot that has no
        object gets none. */
    method CommitToKVS()
      requires slots.Length <= 100
      modifies this`kvs, slots
      ensures forall i | 0 <= i < slots.Length :: slots[i] == Cleaned(old(slots[i]))
      ensures Stored(kvs, slots[..], slots.Length)
      ensures forall i | 0 <= i < slots.Length :: KeyName(i) in kvs <==> KeyName(i) in old(kvs) || Used(slots[i])
      ensures forall name :: !IsSlotName(name, slots.Length) ==> SameObject(old(kvs), kvs, name)
      ensures old(Valid()) ==> Valid() && slots[..] == old(slots[..])
    {
      hide Tidy, KeyName, IsSlotName;
      if Valid() { TidyIsClean(slots[..]); }
      for i := 0 to slots.Length
        invariant forall j | 0 <= j < slots.Length ::
                    slots[j] == if j < i then Cleaned(old(slots[j])) else old(slots[j])
        invariant Stored(kvs, slots[..], i)
        invariant forall j | 0 <= j < slots.Length ::
                    KeyName(j) in kvs <==> KeyName(j) in old(kvs) || (j < i && Used(slots[j]))
        invariant forall name :: !IsSlotName(name, slots.Length) ==> SameObject(old(kvs), kvs, name)
      {
        var blank := false;
        if !Used(slots[i]) {
          blank := true;
          slots[i] := EMPTY;
        }
        forall j | 0 <= j < slots.Length && j != i ensures KeyName(j) != KeyName(i) {
          if KeyName(j) == KeyName(i) { NamesDiffer(j, i); }
        }
        assert IsSlotName(KeyName(i), slots.Length) by { NamesSlot(i, slots.Length); }
        if !(blank && KeyName(i) !in kvs) {
          kvs := StoreIfNecessary(kvs, KeyName(i), slots[i], EMPTY);
        }
      }
      assert old(Valid()) ==> slots[..] == old(slots[..]);
    }

    /** Loading replaces the whole table. */
    method LoadFromKVS()
      requires slots.Length <= 100
      modifies slots
      ensures forall i | 0 <= i < slots.Length :: slots[i] == if KeyName(i) in kvs then kvs[KeyName(i)] else EMPTY
    {
      for i := 0 to slots.Length
        invariant forall j | 0 <= j < i :: slots[j] == EMPTY
      {
        slots[i] := EMPTY;
      }
      for i := 0 to slots.Length
        invariant forall j | 0 <= j < i :: slots[j] == if KeyName(j) in kvs then kvs[KeyName(j)] else EMPTY
        invariant forall j | i <= j < slots.Length :: slots[j] == EMPTY
      {
        if KeyName(i) in kvs {
          slots[i] := kvs[KeyName(i)];
        }
      }
    }
  }

  // ---------------------------------------------------------------- the scans

  function FirstFree(slots: seq<Slot>): (f: nat)
    ensures f <= |slots| && (f < |slots| ==> !Used(slots[f])) && forall i | 0 <= i < f :: Used(slots[i])
  {
    if slots == [] then 0 else
      var f := FirstFree(slots[..|slots| - 1]);
      if f == |slots| - 1 && Used(slots[f]) then f + 1 else f
  }

  /** Where AddPublicKey writes: the first slot other than the first free one with the key's bytes,
      else the first free one, else nowhere. */
  predicate IsTarget(slots: seq<Slot>, key: seq<byte>, k: int) {
    var f := FirstFree(slots);
    if 0 <= k < |slots| && k != f then
      slots[k].pubkey == key && forall i | 0 <= i < k && i != f :: slots[i].pubkey != key
    else
      (k == if f < |slots| then f else -1) && forall i | 0 <= i < |slots| && i != f :: slots[i].pubkey != key
  }

  /** On a tidy table, key bytes match exactly in the slot that holds the key. */
  lemma LookupIsMatch(slots: seq<Slot>, key: seq<byte>)
    requires Tidy(slots) && ProperKey(key)
    ensures forall i | 0 <= i < |slots| :: slots[i].pubkey == key <==> HeldAt(slots, key, i)
    ensures key in Table(slots) <==> exists i :: 0 <= i < |slots| && slots[i].pubkey == key
  {
    forall i | 0 <= i < |slots| ensures slots[i].pubkey == key <==> HeldAt(slots, key, i) {
      assert SlotOk(slots[i]);
    }
    TableLists(slots);
    if key in Table(slots) { assert Held(slots, key); }
  }

  /** Adding a proper key under a proper name is an update of the map; it fails only when the key is
      absent and every slot is taken. */
  lemma AddRefines(slots: seq<Slot>, key: seq<byte>, name: seq<byte>)
    requires Tidy(slots) && ProperKey(key) && name != [] && |name| <= NAME_LEN
    ensures forall k :: IsTarget(slots, key, k) ==>
              && (k >= 0 <==> key in Table(slots) || FirstFree(slots) < |slots|)
              && (k >= 0 ==> k < |slots| && Tidy(slots[k := Slot(key, name)])
                             && Table(slots[k := Slot(key, name)]) == Table(slots)[key := name])
  {
    LookupIsMatch(slots, key);
    forall k | IsTarget(slots, key, k)
      ensures (k >= 0 <==> key in Table(slots) || FirstFree(slots) < |slots|)
      ensures k >= 0 ==> k < |slots| && Tidy(slots[k := Slot(key, name)])
                         && Table(slots[k := Slot(key, name)]) == Table(slots)[key := name]
    {
      var f := FirstFree(slots);
      if f < |slots| { assert SlotOk(slots[f]); }
      if k >= 0 { TableSet(slots, k, Slot(key, name)); }
    }
  }

  /** An added entry leaves the table tidy exactly when it has a name and a proper key (or is the
      cleared entry itself). Without a name, the key is found although its slot counts as free. */
  lemma AddKeepsTidyExactly(slots: seq<Slot>, key: seq<byte>, desc: seq<byte>, k: int)
    requires Tidy(slots) && |key| == KEY_SIZE && IsTarget(slots, key, k) && k >= 0
    ensures Tidy(slots[k := Slot(key, Truncated(desc))]) <==> (desc == [] <==> key == ZERO_KEY)
  {
    var s := Slot(key, Truncated(desc));
    var t := slots[k := s];
    if desc != [] && ProperKey(key) {
      AddRefines(slots, key, Truncated(desc));
    } else if desc == [] && key == ZERO_KEY {
      SetIsTidy(slots, k, s);
    } else {
      assert t[k] == s;
      assert !SlotOk(s);
    }
  }

  /** A key of ones added to an empty table without a name: FindKey sees it in a slot that counts as free. */
  lemma NamelessKey()
    ensures var key := seq(KEY_SIZE, _ => 1);
            var slots := [EMPTY][0 := Slot(key, Truncated([]))];
            IsTarget([EMPTY], key, 0) && slots[0].pubkey == key && !Used(slots[0]) && !Tidy(slots)
  {
    var key := seq(KEY_SIZE, _ => 1);
    assert key[0] != ZERO_KEY[0];
    assert FirstFree([EMPTY]) == 0;
  }

  /** A restart: the table is committed, and a new manager over the same store loads it. It starts with
      the table as committed, which is the table before the commit when that was tidy. */
  method Restart(before: KeyManager) returns (after: KeyManager)
    requires before.slots.Length <= 100
    modifies before, before.slots
    ensures fresh(after) && fresh(after.slots) && after.kvs == before.kvs
    ensures after.slots[..] == before.slots[..]
    ensures forall i | 0 <= i < before.slots.Length :: before.slots[i] == Cleaned(old(before.slots[i]))
    ensures old(before.Valid()) ==>
              after.Valid() && after.slots[..] == old(before.slots[..])
              && Table(after.slots[..]) == old(Table(before.slots[..]))
  {
    hide Tidy, Table, KeyName;
    before.CommitToKVS();
    after := new KeyManager(before.slots.Length, before.kvs);
    after.LoadFromKVS();
    forall i | 0 <= i < before.slots.Length ensures after.slots[i] == before.slots[i] {
      assert before.slots[..][i] == before.slots[i];
    }
    assert after.slots[..] == before.slots[..];
  }
}
