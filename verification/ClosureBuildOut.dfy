/**
 The build's own output in the closure.  It is stored as the environment variable gives it,
 not normalised like a requisite; a slash behind its store object puts it where a lookup
 does not start.
 */
module ClosureBuildOut {
  import opened Options
  import opened ClosureHash
  import opened ClosureTable
  import opened ClosureLoad

  /** No key of the closure but the build output agrees with `obj` on 44 characters. */
  ghost predicate OnlyBuildOutAgrees(lines: seq<CString>, out: CString, obj: CString) {
    && AgreeOn44(out, obj)
    && forall key :: key in ClosureKeys(lines, Some(out)) && AgreeOn44(key, obj) ==> key == out
  }

  /** The slots from where `obj` hashes to up to slot `i` are filled. */
  ghost predicate LeadsTo(t: Table, obj: CString, i: nat)
    requires i < |t|
  {
    FilledFrom(t, Hash(obj, |t|), Distance(Hash(obj, |t|), i, |t|))
  }

  /** With room, the slots that agree with `obj` are the one slot that holds the build output. */
  lemma BuildOutSlot(lines: seq<CString>, out: CString, obj: CString) returns (i: nat)
    requires AllFit(ClosureKeys(lines, Some(out))) && |ClosureKeys(lines, Some(out))| < MAX_ENTRIES
    requires |obj| >= STORE_PREFIX && OnlyBuildOutAgrees(lines, out, obj)
    ensures var t := Loaded(lines, Some(out));
            && |t| == MAX_ENTRIES && SomeStop(t, obj, LookingUp)
            && i < |t| && t[i] == Filled(out)
            && forall j :: 0 <= j < |t| && t[j].Filled? && AgreeOn44(t[j].key, obj) ==> j == i
  {
    var t, keys := Loaded(lines, Some(out)), ClosureKeys(lines, Some(out));
    LoadLeavesRoomIff(lines, Some(out));
    LoadedRepresents(lines, Some(out));
    LoadedKeysBounds(lines, Some(out));
    LoadedNoDuplicates(lines, Some(out));
    RoomStops(t, obj, LookingUp);
    assert HeldSomewhere(t, out);
    var k :| HeldAfter(t, out, k);
    i := Probed(Hash(out, |t|), k, |t|);
    assert t[i] == Filled(out);
    forall j | 0 <= j < |t| && t[j].Filled? && AgreeOn44(t[j].key, obj) ensures j == i {
      assert Stored(keys, t[j].key);
      assert t[j].key == out;
    }
  }

  /**
   Beneath a store object with which only the build output agrees, a lookup answers yes
   exactly when no empty slot lies between where the object hashes to and the slot of the
   build output.
   */
  lemma BuildOutFoundIff(lines: seq<CString>, out: CString, path: CString)
    requires AllFit(ClosureKeys(lines, Some(out))) && |ClosureKeys(lines, Some(out))| < MAX_ENTRIES
    requires StoreObject(path).Some? && OnlyBuildOutAgrees(lines, out, StoreObject(path).value)
    ensures |Loaded(lines, Some(out))| == MAX_ENTRIES
    ensures SomeStop(Loaded(lines, Some(out)), StoreObject(path).value, LookingUp)
    ensures exists i :: 0 <= i < MAX_ENTRIES && Loaded(lines, Some(out))[i] == Filled(out)
    ensures forall i :: 0 <= i < MAX_ENTRIES && Loaded(lines, Some(out))[i] == Filled(out) ==>
              (Lookup(Loaded(lines, Some(out)), path)
               <==> LeadsTo(Loaded(lines, Some(out)), StoreObject(path).value, i))
  {
    var i := BuildOutSlot(lines, out, StoreObject(path).value);
    LookupOfOnlyIff(Loaded(lines, Some(out)), path, i);
  }

  /** Without a slash behind its store object the build output is found, whatever else is stored. */
  lemma PlainBuildOutFound(lines: seq<CString>, out: CString, path: CString)
    requires AllFit(ClosureKeys(lines, Some(out))) && |ClosureKeys(lines, Some(out))| < MAX_ENTRIES
    requires |out| >= STORE_PREFIX && (forall i :: STORE_PREFIX <= i < |out| ==> out[i] != SLASH)
    requires out < path && path[|out|] == SLASH && |path| < PATH_MAX
    ensures StoreObject(path) == Some(out)
    ensures |Loaded(lines, Some(out))| == MAX_ENTRIES
    ensures SomeStop(Loaded(lines, Some(out)), out, LookingUp)
    ensures Lookup(Loaded(lines, Some(out)), path)
  {
    ObjectOfPath(out, path);
    LoadLeavesRoomIff(lines, Some(out));
    LoadedRepresents(lines, Some(out));
    LoadedKeysBounds(lines, Some(out));
    RoomStops(Loaded(lines, Some(out)), out, LookingUp);
    LookupSound(Loaded(lines, Some(out)), LoadedKeys(lines, Some(out)), path);
  }

  // ---------------------------------------------------------------------------
  // A slashed build output without requisites is never found
  // ---------------------------------------------------------------------------

  /** Where the sentinel hashes to. */
  const SENTINEL_SLOT := 974

  lemma SentinelHash()
    ensures Hash(SENTINEL, MAX_ENTRIES) == SENTINEL_SLOT
  {
    var s := SENTINEL;
    assert Accumulated([]) == 0;
    assert s[..1][..0] == [] && Accumulated(s[..1]) == 64;
    assert s[..2][..1] == s[..1] && Accumulated(s[..2]) == 2048;
    assert s[..3][..2] == s[..2] && Accumulated(s[..3]) == 63599;
    assert s[..4][..3] == s[..3] && Accumulated(s[..4]) == 1971686;
    assert s[..5][..4] == s[..4] && Accumulated(s[..5]) == 61122382;
    assert s[..6][..5] == s[..5] && Accumulated(s[..6]) == 1894793906;
    assert s[..7] == s && s[..7][..6] == s[..6];
  }

  /** One slash more moves the hash. */
  lemma SlashedHash(obj: CString)
    ensures Hash(obj + [SLASH], MAX_ENTRIES) == (HASH_MULTIPLIER * Hash(obj, MAX_ENTRIES) + SLASH) % MAX_ENTRIES
  {
    var a := Accumulated(obj);
    assert (obj + [SLASH])[..|obj|] == obj;
    ModOfMod(a * HASH_MULTIPLIER + SLASH, TWO_64, MAX_ENTRIES);
    StepModulo(a, MAX_ENTRIES, SLASH);
  }

  /** A probe ends at once on an empty slot, and one step on behind a filled one that does not stop it. */
  lemma StoreLands(t: Table, key: CString)
    requires |t| > 1 && Size(t) < |t|
    ensures var h := Hash(key, |t|);
            var next := (h + 1) % |t|;
            && (t[h].Empty? ==> Store(t, key) == Some(t[h := Filled(Truncated(key))]))
            && (t[h].Filled? && t[h].key != key && t[next].Empty? ==>
                  Store(t, key) == Some(t[next := Filled(Truncated(key))]))
  {
    RoomStops(t, key, Storing);
    var h, k := Hash(key, |t|), Steps(t, key, Storing);
    assert Probed(h, 0, |t|) == h;
    assert Probed(h, 1, |t|) == (h + 1) % |t|;
    assert t[h].Empty? ==> k == 0 by { assert k > 0 ==> !Stops(t[Probed(h, 0, |t|)], key, Storing); }
    assert t[h].Filled? && t[h].key != key && t[(h + 1) % |t|].Empty? ==> k == 1 by {
      assert k > 1 ==> !Stops(t[Probed(h, 1, |t|)], key, Storing);
    }
  }

  /** The slot of the build output in a closure without requisites. */
  function LoneSlot(out: CString): nat {
    if Hash(out, MAX_ENTRIES) == SENTINEL_SLOT then SENTINEL_SLOT + 1 else Hash(out, MAX_ENTRIES)
  }

  lemma LoneTable(out: CString)
    requires out != SENTINEL && |out| < PATH_MAX
    ensures LoneSlot(out) < MAX_ENTRIES
    ensures Loaded([], Some(out)) == EmptyTable()[SENTINEL_SLOT := Filled(SENTINEL)][LoneSlot(out) := Filled(out)]
  {
    SentinelHash();
    var t := EmptyTable();
    EmptySize(t);
    StoreLands(t, SENTINEL);
    var t1 := t[SENTINEL_SLOT := Filled(SENTINEL)];
    FillingGrows(t, SENTINEL_SLOT, SENTINEL);
    StoreLands(t1, out);
  }

  /** The slashed output is not where its store object hashes to, nor next to a sentinel there. */
  lemma SlashedSlot(obj: CString)
    ensures var h, slot := Hash(obj, MAX_ENTRIES), LoneSlot(obj + [SLASH]);
            slot != h && (h == SENTINEL_SLOT ==> slot != SENTINEL_SLOT + 1)
  {
    SlashedHash(obj);
    var h, h' := Hash(obj, MAX_ENTRIES), Hash(obj + [SLASH], MAX_ENTRIES);
    var q := (HASH_MULTIPLIER * h + SLASH) / MAX_ENTRIES;
    assert HASH_MULTIPLIER * h + SLASH == MAX_ENTRIES * q + h';
    assert h' == h ==> 2 * (15 * h + 23 - 2048 * q) == -1;
  }

  /** The slots of that table, one by one. */
  function LoneEntry(out: CString, i: nat): Slot {
    if i == LoneSlot(out) then Filled(out) else if i == SENTINEL_SLOT then Filled(SENTINEL) else Empty
  }

  lemma LoneEntries(out: CString, i: nat)
    requires out != SENTINEL && |out| < PATH_MAX && i < MAX_ENTRIES
    ensures |Loaded([], Some(out))| == MAX_ENTRIES && LoneSlot(out) < MAX_ENTRIES
    ensures Loaded([], Some(out))[i] == LoneEntry(out, i)
  {
    LoneTable(out);
  }

  /** A slot that is empty on the way keeps a lookup from getting any further. */
  lemma EmptyOnTheWay(t: Table, obj: CString, i: nat, k: nat)
    requires |t| > 0 && i < |t| && k < Distance(Hash(obj, |t|), i, |t|)
    requires t[Probed(Hash(obj, |t|), k, |t|)].Empty?
    ensures !Reached(t, obj, i)
  {
  }

  /** In a table of two entries, the one with a short key is no obstacle and no match. */
  lemma NotReached(t: Table, obj: CString, slot: nat, i: nat)
    requires |t| == MAX_ENTRIES && slot < |t| && i < |t|
    requires slot != Hash(obj, |t|) && (Hash(obj, |t|) == SENTINEL_SLOT ==> slot != SENTINEL_SLOT + 1)
    requires forall j :: 0 <= j < |t| && j != slot && t[j].Filled? ==> j == SENTINEL_SLOT && |t[j].key| < STORE_PREFIX
    ensures SomeStop(t, obj, LookingUp) && !Reached(t, obj, i)
  {
    var h := Hash(obj, |t|);
    var k := if h == SENTINEL_SLOT then 1 else 0;
    ProbedOffset(h, k, |t|);
    assert Stops(t[h + k], obj, LookingUp);
    if i == slot { EmptyOnTheWay(t, obj, i, k); }
  }

  lemma LoneNotReached(obj: CString, i: nat)
    requires STORE_PREFIX <= |obj| && |obj| + 1 < PATH_MAX && i < MAX_ENTRIES
    ensures var t := Loaded([], Some(obj + [SLASH]));
            |t| == MAX_ENTRIES && SomeStop(t, obj, LookingUp) && !Reached(t, obj, i)
  {
    var out := obj + [SLASH];
    var t := Loaded([], Some(out));
    SlashedSlot(obj);
    LoneEntries(out, i);
    forall j | 0 <= j < |t| ensures t[j] == LoneEntry(out, j) { LoneEntries(out, j); }
    NotReached(t, obj, LoneSlot(out), i);
  }

  /**
   With no requisites, a build output written with a slash behind its store object is never
   found: every path beneath it counts as outside the closure.
   */
  lemma SlashedBuildOutMissed(obj: CString, path: CString)
    requires |obj| >= STORE_PREFIX && (forall i :: STORE_PREFIX <= i < |obj| ==> obj[i] != SLASH)
    requires obj + [SLASH] <= path && |obj| + 1 < PATH_MAX
    ensures StoreObject(path) == Some(obj)
    ensures var t := Loaded([], Some(obj + [SLASH]));
            |t| == MAX_ENTRIES && SomeStop(t, obj, LookingUp) && !Lookup(t, path)
  {
    var out := obj + [SLASH];
    assert path[|obj|] == out[|obj|] && obj == out[..|obj|] <= path;
    ObjectOfPath(obj, path);
    LoneNotReached(obj, 0);
    var t := Loaded([], Some(out));
    forall i | 0 <= i < |t| ensures !Reached(t, obj, i) {
      LoneNotReached(obj, i);
    }
    LookupIff(t, path);
  }
}
