/**
 The closure of an environment, as an open-addressing hash table with linear probing.

 Keys are hashed by the whole string.  Storing compares whole strings; looking up
 compares the first 44 characters, which hold the store directory and the store hash.

 The table is treated as the value of its array of slots; `ClosureTableObject` is the
 array itself.
 */
module ClosureTable {
  import opened Options
  import opened ClosureHash

  const MAX_ENTRIES := 4096
  const PATH_MAX := 4096
  const STORE_PREFIX := 44
  const SLASH: Byte := 47
  const NEWLINE: Byte := 10

  datatype Slot = Empty | Filled(key: CString)

  type Table = seq<Slot>

  /** What fits a slot's buffer, by `strncpy` and the forced terminator. */
  function Truncated(key: CString): (text: CString)
    ensures text <= key && (|key| < 4096 ==> text == key) && (|key| >= 4096 ==> |text| == 4095)
  {
    if |key| < PATH_MAX then key else key[..PATH_MAX - 1]
  }

  /** `strncmp(a, b, 44) == 0` */
  predicate AgreeOn44(a: CString, b: CString) {
    if |a| < STORE_PREFIX || |b| < STORE_PREFIX then a == b
    else a[..STORE_PREFIX] == b[..STORE_PREFIX]
  }

  datatype Purpose = Storing | LookingUp

  /** A probe for `key` ends at this slot. */
  predicate Stops(slot: Slot, key: CString, purpose: Purpose) {
    slot.Empty? || (if purpose.Storing? then slot.key == key else AgreeOn44(slot.key, key))
  }

  // ---------------------------------------------------------------------------
  // Probing
  // ---------------------------------------------------------------------------

  /** The slot looked at after `k` steps `index = (index + 1) % capacity`. */
  function Probed(start: nat, k: nat, capacity: nat): (i: nat)
    requires start < capacity
    ensures i < capacity
  {
    if k == 0 then start else (Probed(start, k - 1, capacity) + 1) % capacity
  }

  lemma {:induction false} ProbedOffset(start: nat, k: nat, capacity: nat)
    requires start < capacity && k < capacity
    ensures Probed(start, k, capacity)
            == if start + k < capacity then start + k else start + k - capacity
  {
    if k > 0 {
      ProbedOffset(start, k - 1, capacity);
      var i := Probed(start, k - 1, capacity);
      if i + 1 == capacity {
        ModUnique(i + 1, capacity, 1, 0);
      } else {
        ModUnique(i + 1, capacity, 0, i + 1);
      }
    }
  }

  /** The cyclic distance from `start` to `i`. */
  function Distance(start: nat, i: nat, capacity: nat): (k: nat)
    requires start < capacity && i < capacity
    ensures k < capacity
  {
    if start <= i then i - start else i + capacity - start
  }

  /** Every slot is reached within one round. */
  lemma ProbedReaches(start: nat, i: nat, capacity: nat)
    requires start < capacity && i < capacity
    ensures Probed(start, Distance(start, i, capacity), capacity) == i
  {
    ProbedOffset(start, Distance(start, i, capacity), capacity);
  }

  /** The probing loop leaves after `k` steps, and not before. */
  ghost predicate StopsAfter(t: Table, start: nat, key: CString, purpose: Purpose, k: nat)
    requires start < |t|
  {
    && Stops(t[Probed(start, k, |t|)], key, purpose)
    && forall j :: 0 <= j < k ==> !Stops(t[Probed(start, j, |t|)], key, purpose)
  }

  ghost predicate ProbeHalts(t: Table, start: nat, key: CString, purpose: Purpose)
    requires start < |t|
  {
    exists k :: StopsAfter(t, start, key, purpose, k)
  }

  /** Some slot of the table would stop the probe. */
  ghost predicate SomeStop(t: Table, key: CString, purpose: Purpose) {
    exists i :: 0 <= i < |t| && Stops(t[i], key, purpose)
  }

  lemma {:induction false} FirstStop(t: Table, start: nat, key: CString, purpose: Purpose, k: nat, last: nat)
    returns (first: nat)
    requires start < |t| && k <= last && Stops(t[Probed(start, last, |t|)], key, purpose)
    requires forall j :: 0 <= j < k ==> !Stops(t[Probed(start, j, |t|)], key, purpose)
    ensures k <= first <= last && StopsAfter(t, start, key, purpose, first)
    decreases last - k
  {
    if Stops(t[Probed(start, k, |t|)], key, purpose) {
      first := k;
    } else {
      first := FirstStop(t, start, key, purpose, k + 1, last);
    }
  }

  /** A probe halts if and only if some slot, anywhere in the table, stops it. */
  lemma ProbeHaltsIff(t: Table, start: nat, key: CString, purpose: Purpose)
    requires start < |t|
    ensures ProbeHalts(t, start, key, purpose) <==> SomeStop(t, key, purpose)
  {
    if SomeStop(t, key, purpose) {
      var i :| 0 <= i < |t| && Stops(t[i], key, purpose);
      ProbedReaches(start, i, |t|);
      var first := FirstStop(t, start, key, purpose, 0, Distance(start, i, |t|));
    }
    if ProbeHalts(t, start, key, purpose) {
      var k :| StopsAfter(t, start, key, purpose, k);
      assert Stops(t[Probed(start, k, |t|)], key, purpose);
    }
  }

  /** The number of steps a halting probe for `key` takes from the slot it hashes to. */
  ghost function Steps(t: Table, key: CString, purpose: Purpose): (k: nat)
    requires |t| > 0 && SomeStop(t, key, purpose)
    ensures StopsAfter(t, Hash(key, |t|), key, purpose, k)
  {
    ProbeHaltsIff(t, Hash(key, |t|), key, purpose);
    var k :| StopsAfter(t, Hash(key, |t|), key, purpose, k);
    k
  }

  /** The slot where a halting probe for `key` ends. */
  ghost function Landing(t: Table, key: CString, purpose: Purpose): (i: nat)
    requires |t| > 0 && SomeStop(t, key, purpose)
    ensures i < |t| && Stops(t[i], key, purpose)
  {
    Probed(Hash(key, |t|), Steps(t, key, purpose), |t|)
  }

  // ---------------------------------------------------------------------------
  // Size
  // ---------------------------------------------------------------------------

  /** The number of filled slots. */
  function Size(t: Table): (n: nat)
    ensures n <= |t|
  {
    if t == [] then 0 else
      Size(t[..|t| - 1]) + (if t[|t| - 1].Filled? then 1 else 0)
  }

  /** A table with fewer entries than slots has an empty slot, which stops every probe. */
  lemma {:induction false} RoomMeansEmptySlot(t: Table)
    ensures Size(t) < |t| <==> exists i :: 0 <= i < |t| && t[i].Empty?
  {
    if t != [] {
      var init := t[..|t| - 1];
      RoomMeansEmptySlot(init);
      if Size(t) < |t| {
        if t[|t| - 1].Filled? {
          var i :| 0 <= i < |init| && init[i].Empty?;
          assert t[i].Empty?;
        }
      } else {
        forall i | 0 <= i < |t| ensures t[i].Filled? {
          if i < |t| - 1 { assert init[i].Filled?; }
        }
      }
    }
  }

  lemma RoomStops(t: Table, key: CString, purpose: Purpose)
    requires Size(t) < |t|
    ensures SomeStop(t, key, purpose)
  {
    RoomMeansEmptySlot(t);
    var i :| 0 <= i < |t| && t[i].Empty?;
    assert Stops(t[i], key, purpose);
  }

  lemma {:induction false} FillingGrows(t: Table, i: nat, key: CString)
    requires i < |t| && t[i].Empty?
    ensures Size(t[i := Filled(key)]) == Size(t) + 1
  {
    var t' := t[i := Filled(key)];
    if i == |t| - 1 {
      assert t'[..|t| - 1] == t[..|t| - 1];
    } else {
      FillingGrows(t[..|t| - 1], i, key);
      assert t'[..|t| - 1] == t[..|t| - 1][i := Filled(key)];
    }
  }

  lemma {:induction false} EmptySize(t: Table)
    requires forall i :: 0 <= i < |t| ==> t[i].Empty?
    ensures Size(t) == 0
  {
    if t != [] { EmptySize(t[..|t| - 1]); }
  }

  // ---------------------------------------------------------------------------
  // Operations
  // ---------------------------------------------------------------------------

  /** `hash_table_store`: refused on a full table, and otherwise always completes. */
  ghost function Store(t: Table, key: CString): (t': Option<Table>)
    requires |t| > 0
    ensures t'.Some? ==> |t'.value| == |t|
  {
    if Size(t) >= |t| then None else
      RoomStops(t, key, Storing);
      var i := Landing(t, key, Storing);
      Some(if t[i].Empty? then t[i := Filled(Truncated(key))] else t)
  }

  /** The end of the store object in `path`: the first slash at or after the 44th index. */
  function ObjectEnd(path: CString, from: nat): (end: Option<nat>)
    ensures end.Some? ==> from <= end.value < |path| && path[end.value] == SLASH
    ensures end.Some? ==> forall i :: from <= i < end.value ==> path[i] != SLASH
    ensures end.None? ==> forall i :: from <= i < |path| ==> path[i] != SLASH
    decreases |path| - from
  {
    if from >= |path| then None
    else if path[from] == SLASH then Some(from)
    else ObjectEnd(path, from + 1)
  }

  /** The store object that `path` lies in, if it lies beneath one. */
  function StoreObject(path: CString): (obj: Option<CString>)
    ensures obj.Some? ==> STORE_PREFIX <= |obj.value| < |path|
    ensures obj.Some? ==> obj.value < path && path[|obj.value|] == SLASH
  {
    match ObjectEnd(path, STORE_PREFIX)
    case Some(end) => Some(path[..end])
    case None => None
  }

  /** A path continues behind its store object, which ends at the first slash from index 44 on. */
  lemma ObjectOfPath(obj: CString, path: CString)
    requires |obj| >= STORE_PREFIX && (forall i :: STORE_PREFIX <= i < |obj| ==> obj[i] != SLASH)
    requires obj < path && path[|obj|] == SLASH
    ensures StoreObject(path) == Some(obj)
  {
    assert forall i :: 0 <= i < |obj| ==> path[i] == obj[i];
    var end := ObjectEnd(path, STORE_PREFIX);
    assert path[|obj|] == SLASH && end.Some?;
    assert end.value == |obj| && path[..|obj|] == obj;
  }

  /** `hash_table_lookup`, where it returns at all. */
  ghost predicate Lookup(t: Table, path: CString)
    requires |t| > 0
    requires StoreObject(path).Some? ==> SomeStop(t, StoreObject(path).value, LookingUp)
  {
    StoreObject(path).Some? && t[Landing(t, StoreObject(path).value, LookingUp)].Filled?
  }

  // ---------------------------------------------------------------------------
  // The table holds a set
  // ---------------------------------------------------------------------------

  /** From the slot `key` hashes to, `k` filled slots lead to the one that holds it. */
  ghost predicate HeldAfter(t: Table, key: CString, k: nat)
    requires |t| > 0
  {
    && t[Probed(Hash(key, |t|), k, |t|)] == Filled(Truncated(key))
    && forall j :: 0 <= j < k ==> t[Probed(Hash(key, |t|), j, |t|)].Filled?
  }

  ghost predicate HeldSomewhere(t: Table, key: CString)
    requires |t| > 0
  {
    exists k :: HeldAfter(t, key, k)
  }

  /** `text` is what a slot holds of one of the keys. */
  ghost predicate Stored(keys: set<CString>, text: CString) {
    exists key :: key in keys && text == Truncated(key)
  }

  ghost predicate Represents(t: Table, keys: set<CString>)
    requires |t| > 0
  {
    && (forall key :: key in keys ==> HeldSomewhere(t, key))
    && (forall i {:trigger Stored(keys, t[i].key)} :: 0 <= i < |t| && t[i].Filled? ==> Stored(keys, t[i].key))
  }

  lemma FillingKeepsHeld(t: Table, i: nat, filler: CString, key: CString)
    requires |t| > 0 && i < |t| && t[i].Empty? && HeldSomewhere(t, key)
    ensures HeldSomewhere(t[i := Filled(filler)], key)
  {
    var k :| HeldAfter(t, key, k);
    assert HeldAfter(t[i := Filled(filler)], key, k);
  }

  lemma ProbeCrossesFilled(t: Table, key: CString)
    requires |t| > 0 && SomeStop(t, key, Storing)
    ensures forall j :: 0 <= j < Steps(t, key, Storing) ==> t[Probed(Hash(key, |t|), j, |t|)].Filled?
  {
    forall j | 0 <= j < Steps(t, key, Storing) ensures t[Probed(Hash(key, |t|), j, |t|)].Filled? {
      assert !Stops(t[Probed(Hash(key, |t|), j, |t|)], key, Storing);
    }
  }

  lemma FillingHolds(t: Table, key: CString)
    requires |t| > 0 && SomeStop(t, key, Storing) && t[Landing(t, key, Storing)].Empty?
    ensures HeldSomewhere(t[Landing(t, key, Storing) := Filled(Truncated(key))], key)
  {
    ProbeCrossesFilled(t, key);
    assert HeldAfter(t[Landing(t, key, Storing) := Filled(Truncated(key))], key, Steps(t, key, Storing));
  }

  lemma FillingRepresents(t: Table, keys: set<CString>, key: CString)
    requires |t| > 0 && Represents(t, keys)
    requires SomeStop(t, key, Storing) && t[Landing(t, key, Storing)].Empty?
    ensures Represents(t[Landing(t, key, Storing) := Filled(Truncated(key))], keys + {key})
  {
    var i := Landing(t, key, Storing);
    var t' := t[i := Filled(Truncated(key))];
    forall other | other in keys + {key} ensures HeldSomewhere(t', other) {
      if other in keys { FillingKeepsHeld(t, i, Truncated(key), other); } else { FillingHolds(t, key); }
    }
    forall x | 0 <= x < |t'| && t'[x].Filled?
      ensures Stored(keys + {key}, t'[x].key)
    {
      if x == i {
        assert key in keys + {key};
      } else {
        assert Stored(keys, t[x].key);
        var other :| other in keys && t[x].key == Truncated(other);
        assert other in keys + {key};
      }
    }
  }

  lemma FindingRepresents(t: Table, keys: set<CString>, key: CString)
    requires |t| > 0 && Represents(t, keys)
    requires SomeStop(t, key, Storing) && t[Landing(t, key, Storing)].Filled?
    ensures Represents(t, keys + {key})
  {
    var i := Landing(t, key, Storing);
    FilledIsTruncated(t, keys, i);
    ProbeCrossesFilled(t, key);
    assert HeldAfter(t, key, Steps(t, key, Storing));
    forall x | 0 <= x < |t| && t[x].Filled?
      ensures Stored(keys + {key}, t[x].key)
    {
      assert Stored(keys, t[x].key);
      var other :| other in keys && t[x].key == Truncated(other);
      assert other in keys + {key};
    }
  }

  /** A successful store adds exactly its key to the set, and fills at most one slot. */
  lemma StoreRepresents(t: Table, keys: set<CString>, key: CString)
    requires |t| > 0 && Represents(t, keys) && Store(t, key).Some?
    ensures var t' := Store(t, key).value;
            && |t'| == |t| && Represents(t', keys + {key})
            && Size(t) <= Size(t') <= Size(t) + 1
  {
    RoomStops(t, key, Storing);
    var i := Landing(t, key, Storing);
    if t[i].Empty? {
      FillingGrows(t, i, Truncated(key));
      FillingRepresents(t, keys, key);
    } else {
      FindingRepresents(t, keys, key);
    }
  }

  // ---------------------------------------------------------------------------
  // The size of the table is the size of the set
  // ---------------------------------------------------------------------------

  /** Keys that fit their slot's buffer whole. */
  ghost predicate AllFit(keys: set<CString>) {
    forall key :: key in keys ==> |key| < PATH_MAX
  }

  ghost predicate NoDuplicates(t: Table) {
    forall i, j :: 0 <= i < j < |t| && t[i].Filled? && t[j].Filled? ==> t[i].key != t[j].key
  }

  ghost function SlotKeys(t: Table): set<CString> {
    set i | 0 <= i < |t| && t[i].Filled? :: t[i].key
  }

  lemma SlotKeysStep(init: Table, last: Slot)
    ensures SlotKeys(init + [last]) == SlotKeys(init) + if last.Filled? then {last.key} else {}
  {
    var t := init + [last];
    forall key ensures key in SlotKeys(t) <==> key in SlotKeys(init) || last == Filled(key) {
      if key in SlotKeys(init) {
        var i :| 0 <= i < |init| && init[i] == Filled(key);
        assert t[i] == Filled(key);
      }
      if last == Filled(key) { assert t[|init|] == Filled(key); }
      if key in SlotKeys(t) && last != Filled(key) {
        var i :| 0 <= i < |t| && t[i] == Filled(key);
        assert init[i] == Filled(key);
      }
    }
  }

  lemma LastKeyIsNew(init: Table, last: Slot)
    requires NoDuplicates(init + [last]) && last.Filled?
    ensures last.key !in SlotKeys(init)
  {
    var t := init + [last];
    assert t[|init|] == last;
    assert forall i :: 0 <= i < |init| ==> t[i] == init[i];
  }

  lemma {:induction false} SlotKeysCount(t: Table)
    requires NoDuplicates(t)
    ensures |SlotKeys(t)| == Size(t)
  {
    if t != [] {
      var init, last := t[..|t| - 1], t[|t| - 1];
      SlotKeysCount(init);
      assert t == init + [last];
      SlotKeysStep(init, last);
      if last.Filled? {
        LastKeyIsNew(init, last);
      } else {
        assert SlotKeys(t) == SlotKeys(init);
      }
    }
  }

  /** Storing a key that is held finds it. */
  lemma HeldIsFound(t: Table, key: CString)
    requires |t| > 0 && HeldSomewhere(t, key) && |key| < PATH_MAX && SomeStop(t, key, Storing)
    ensures t[Landing(t, key, Storing)].Filled?
  {
    var k :| HeldAfter(t, key, k);
    assert Stops(t[Probed(Hash(key, |t|), k, |t|)], key, Storing);
    assert Steps(t, key, Storing) <= k;
  }

  lemma StoreKeepsNoDuplicates(t: Table, keys: set<CString>, key: CString)
    requires |t| > 0 && Represents(t, keys) && AllFit(keys) && |key| < PATH_MAX
    requires NoDuplicates(t) && Store(t, key).Some?
    ensures NoDuplicates(Store(t, key).value)
  {
    RoomStops(t, key, Storing);
    var i := Landing(t, key, Storing);
    if t[i].Empty? {
      assert key !in keys by {
        if HeldSomewhere(t, key) { HeldIsFound(t, key); }
      }
      forall j | 0 <= j < |t| && t[j].Filled? ensures t[j].key != key {
        assert Stored(keys, t[j].key);
        var other :| other in keys && t[j].key == Truncated(other);
      }
    }
  }

  /** A table of keys that fit has as many filled slots as keys. */
  lemma SizeIsCardinality(t: Table, keys: set<CString>)
    requires |t| > 0 && Represents(t, keys) && AllFit(keys) && NoDuplicates(t)
    ensures Size(t) == |keys|
  {
    SlotKeysCount(t);
    forall key ensures key in SlotKeys(t) <==> key in keys {
      if key in SlotKeys(t) {
        var i :| 0 <= i < |t| && t[i] == Filled(key);
        assert Stored(keys, t[i].key);
        var other :| other in keys && t[i].key == Truncated(other);
      }
      if key in keys {
        var k :| HeldAfter(t, key, k);
        assert t[Probed(Hash(key, |t|), k, |t|)] == Filled(key);
      }
    }
    assert SlotKeys(t) == keys;
  }

  // ---------------------------------------------------------------------------
  // Lookup
  // ---------------------------------------------------------------------------

  lemma FilledIsTruncated(t: Table, keys: set<CString>, i: nat)
    requires |t| > 0 && Represents(t, keys) && i < |t| && t[i].Filled?
    ensures Truncated(t[i].key) == t[i].key
  {
    assert Stored(keys, t[i].key);
    var key :| key in keys && t[i].key == Truncated(key);
  }

  lemma StoredIsFound(t: Table, obj: CString)
    requires |t| > 0 && HeldSomewhere(t, obj) && |obj| < PATH_MAX && SomeStop(t, obj, LookingUp)
    ensures t[Landing(t, obj, LookingUp)].Filled?
  {
    var k :| HeldAfter(t, obj, k);
    assert Stops(t[Probed(Hash(obj, |t|), k, |t|)], obj, LookingUp);
    assert Steps(t, obj, LookingUp) <= k;
  }

  lemma TruncationAgrees(key: CString, obj: CString)
    requires |obj| >= STORE_PREFIX && AgreeOn44(Truncated(key), obj)
    ensures AgreeOn44(key, obj)
  {
  }

  /**
   A lookup finds every store object that was stored; and when it answers yes, some
   stored key agrees with the store object on its first 44 characters.
   */
  lemma LookupSound(t: Table, keys: set<CString>, path: CString)
    requires |t| > 0 && Represents(t, keys) && |path| < PATH_MAX
    requires StoreObject(path).Some? && SomeStop(t, StoreObject(path).value, LookingUp)
    ensures StoreObject(path).value in keys ==> Lookup(t, path)
    ensures Lookup(t, path) ==> exists key :: key in keys && AgreeOn44(key, StoreObject(path).value)
  {
    var obj := StoreObject(path).value;
    if obj in keys {
      StoredIsFound(t, obj);
    }
    if Lookup(t, path) {
      var i := Landing(t, obj, LookingUp);
      assert Stored(keys, t[i].key);
      var key :| key in keys && t[i].key == Truncated(key);
      TruncationAgrees(key, obj);
    }
  }

  /** Strings that share their first 44 characters with `obj` are `obj`. */
  ghost predicate PrefixIdentifies(keys: set<CString>, obj: CString) {
    forall key :: key in keys && AgreeOn44(key, obj) ==> key == obj
  }

  /** Where 44 characters identify a store object, lookup is set membership. */
  lemma LookupIsMembership(t: Table, keys: set<CString>, path: CString)
    requires |t| > 0 && Represents(t, keys) && |path| < PATH_MAX
    requires StoreObject(path).Some? && SomeStop(t, StoreObject(path).value, LookingUp)
    requires PrefixIdentifies(keys, StoreObject(path).value)
    ensures Lookup(t, path) <==> StoreObject(path).value in keys
  {
    LookupSound(t, keys, path);
  }

  /**
   Looking up a path beneath a store object returns if and only if the table has room or
   some slot agrees with the object on 44 characters: on a full table without such a
   slot the loop never ends.
   */
  lemma LookupReturnsIff(t: Table, obj: CString)
    requires |t| > 0
    ensures ProbeHalts(t, Hash(obj, |t|), obj, LookingUp)
            <==> Size(t) < |t| || exists i :: 0 <= i < |t| && t[i].Filled? && AgreeOn44(t[i].key, obj)
  {
    ProbeHaltsIff(t, Hash(obj, |t|), obj, LookingUp);
    RoomMeansEmptySlot(t);
    if SomeStop(t, obj, LookingUp) {
      var i :| 0 <= i < |t| && Stops(t[i], obj, LookingUp);
      assert t[i].Empty? || AgreeOn44(t[i].key, obj);
    }
    if i :| 0 <= i < |t| && t[i].Empty? {
      assert Stops(t[i], obj, LookingUp);
    } else if i :| 0 <= i < |t| && t[i].Filled? && AgreeOn44(t[i].key, obj) {
      assert Stops(t[i], obj, LookingUp);
    }
  }

  /** The first `k` slots probed from `start` are filled. */
  ghost predicate FilledFrom(t: Table, start: nat, k: nat)
    requires start < |t|
  {
    forall j :: 0 <= j < k ==> t[Probed(start, j, |t|)].Filled?
  }

  /** The first 44 characters are there, and the same. */
  predicate SharesPrefix(a: CString, b: CString) {
    |a| >= 44 && |b| >= 44 && forall i :: 0 <= i < 44 ==> a[i] == b[i]
  }

  /** Agreeing with a store object, which has 44 characters, is sharing them. */
  lemma AgreeIsShare(a: CString, obj: CString)
    requires |obj| >= 44
    ensures AgreeOn44(a, obj) <==> SharesPrefix(a, obj)
  {
    if |a| >= 44 {
      assert forall i :: 0 <= i < 44 ==> a[..44][i] == a[i] && obj[..44][i] == obj[i];
      assert SharesPrefix(a, obj) ==> a[..44] == obj[..44];
    }
  }

  /** Slot `i` agrees with `obj`, and filled slots lead to it from where `obj` hashes to. */
  ghost predicate Reached(t: Table, obj: CString, i: nat)
    requires i < |t|
  {
    && t[i].Filled? && SharesPrefix(t[i].key, obj)
    && FilledFrom(t, Hash(obj, |t|), Distance(Hash(obj, |t|), i, |t|))
  }

  /** A halting probe comes to its slot before it has gone round the table. */
  lemma StepsIsDistance(t: Table, key: CString, purpose: Purpose)
    requires |t| > 0 && SomeStop(t, key, purpose)
    ensures Steps(t, key, purpose) == Distance(Hash(key, |t|), Landing(t, key, purpose), |t|)
  {
    var start, i, k := Hash(key, |t|), Landing(t, key, purpose), Steps(t, key, purpose);
    ProbedReaches(start, i, |t|);
    assert k <= Distance(start, i, |t|);
    ProbedOffset(start, k, |t|);
  }

  /**
   What a lookup answers, for any table and whatever is stored in it: yes exactly when
   some slot agrees on 44 characters and no empty slot lies between where the store object
   hashes to and there.
   */
  lemma LookupIff(t: Table, path: CString)
    requires |t| > 0 && StoreObject(path).Some? && SomeStop(t, StoreObject(path).value, LookingUp)
    ensures Lookup(t, path) <==> exists i :: 0 <= i < |t| && Reached(t, StoreObject(path).value, i)
  {
    var obj := StoreObject(path).value;
    var start, k, landing := Hash(obj, |t|), Steps(t, obj, LookingUp), Landing(t, obj, LookingUp);
    forall key ensures AgreeOn44(key, obj) <==> SharesPrefix(key, obj) { AgreeIsShare(key, obj); }
    if Lookup(t, path) {
      StepsIsDistance(t, obj, LookingUp);
      forall j | 0 <= j < k ensures t[Probed(start, j, |t|)].Filled? {
        assert !Stops(t[Probed(start, j, |t|)], obj, LookingUp);
      }
      assert Reached(t, obj, landing);
    }
    if i :| 0 <= i < |t| && Reached(t, obj, i) {
      ProbedReaches(start, i, |t|);
      assert k <= Distance(start, i, |t|);
    }
  }

  /** Where a single slot agrees, the slots leading to it decide. */
  lemma LookupOfOnlyIff(t: Table, path: CString, i: nat)
    requires |t| > 0 && StoreObject(path).Some? && SomeStop(t, StoreObject(path).value, LookingUp)
    requires i < |t| && t[i].Filled? && AgreeOn44(t[i].key, StoreObject(path).value)
    requires forall j :: 0 <= j < |t| && t[j].Filled? && AgreeOn44(t[j].key, StoreObject(path).value) ==> j == i
    ensures var start := Hash(StoreObject(path).value, |t|);
            Lookup(t, path) <==> FilledFrom(t, start, Distance(start, i, |t|))
  {
    LookupIff(t, path);
    forall key ensures AgreeOn44(key, StoreObject(path).value) <==> SharesPrefix(key, StoreObject(path).value) {
      AgreeIsShare(key, StoreObject(path).value);
    }
    assert Reached(t, StoreObject(path).value, i)
      <==> FilledFrom(t, Hash(StoreObject(path).value, |t|), Distance(Hash(StoreObject(path).value, |t|), i, |t|));
  }
}
