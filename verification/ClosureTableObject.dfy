/** The hash table itself: a fixed array of slots and a size, probed and filled in place. */
module ClosureTableObject {
  import opened ClosureHash
  import opened ClosureTable

  class HashTable {
    const entries: array<Slot>
    var size: nat

    ghost predicate Valid()
      reads this, entries
    {
      entries.Length > 0 && size == Size(entries[..])
    }

    ghost function Contents(): Table
      reads entries
    {
      entries[..]
    }

    constructor (capacity: nat)
      requires 0 < capacity <= MAX_ENTRIES
      ensures Valid() && fresh(entries) && entries.Length == capacity
      ensures forall i :: 0 <= i < capacity ==> entries[i].Empty?
      ensures Represents(Contents(), {})
    {
      entries := new Slot[capacity];
      size := 0;
      new;
      for i := 0 to capacity
        invariant entries.Length == capacity && size == 0
        invariant forall j :: 0 <= j < i ==> entries[j].Empty?
      {
        entries[i] := Empty;
      }
      EmptySize(entries[..]);
    }

    /** Walk from `start` to the first slot that stops the probe. */
    method Probe(start: nat, key: CString, purpose: Purpose) returns (index: nat)
      requires Valid() && start == Hash(key, entries.Length)
      requires SomeStop(Contents(), key, purpose)
      ensures index == Landing(Contents(), key, purpose)
    {
      ghost var t := Contents();
      ghost var steps := Steps(t, key, purpose);
      ghost var k: nat := 0;
      index := start;
      while entries[index].Filled? &&
            !(if purpose.Storing? then entries[index].key == key
              else AgreeOn44(entries[index].key, key))
        invariant t == Contents() && k <= steps
        invariant index == Probed(start, k, entries.Length)
        decreases steps - k
      {
        assert !Stops(t[Probed(start, k, |t|)], key, purpose);
        index := (index + 1) % entries.Length;
        k := k + 1;
      }
      assert Stops(t[Probed(start, k, |t|)], key, purpose);
    }

    method Store(key: CString) returns (ok: bool)
      requires Valid()
      modifies this, entries
      ensures Valid()
      ensures ok <==> ClosureTable.Store(old(Contents()), key).Some?
      ensures Contents() == if ok then ClosureTable.Store(old(Contents()), key).value
                            else old(Contents())
    {
      if size >= entries.Length {
        return false;
      }
      RoomStops(Contents(), key, Storing);
      var start := ComputeHash(key, entries.Length);
      var index := Probe(start, key, Storing);
      if entries[index].Empty? {
        FillingGrows(Contents(), index, Truncated(key));
        entries[index] := Filled(Truncated(key));
        size := size + 1;
        assert Contents() == old(Contents())[index := Filled(Truncated(key))];
      }
      return true;
    }

    /** Reading the table needs no more than what makes the loop end. */
    method Lookup(path: CString) returns (found: bool)
      requires Valid() && |path| < PATH_MAX
      requires StoreObject(path).Some? ==> SomeStop(Contents(), StoreObject(path).value, LookingUp)
      ensures found == ClosureTable.Lookup(Contents(), path)
    {
      if |path| < STORE_PREFIX {
        return false;
      }
      var obj := StoreObject(path);
      if obj.None? {
        return false;
      }
      var start := ComputeHash(obj.value, entries.Length);
      var index := Probe(start, obj.value, LookingUp);
      return entries[index].Filled?;
    }
  }
}
