/**
 Building the closure table from `requisites.txt`, and deciding whether a path is in
 the closure.
 */
module ClosureLoad {
  import opened Options
  import opened ClosureHash
  import opened ClosureTable
  import opened ClosureTableObject

  /** "@@out@@" */
  const SENTINEL: CString := [64, 64, 111, 117, 116, 64, 64]

  function EmptyTable(): (t: Table)
    ensures |t| == MAX_ENTRIES && forall i :: 0 <= i < |t| ==> t[i].Empty?
  {
    seq(MAX_ENTRIES, _ => Empty)
  }

  // ---------------------------------------------------------------------------
  // Normalising a line
  // ---------------------------------------------------------------------------

  /** The line up to its first newline. */
  function BeforeNewline(line: CString): CString {
    if line == [] || line[0] == NEWLINE then [] else [line[0]] + BeforeNewline(line[1..])
  }

  function WithoutTrailingSlashes(line: CString): CString {
    if line != [] && line[|line| - 1] == SLASH then WithoutTrailingSlashes(line[..|line| - 1])
    else line
  }

  function Normalised(line: CString): CString {
    WithoutTrailingSlashes(BeforeNewline(line))
  }

  predicate AllSlashes(s: CString) {
    forall i :: 0 <= i < |s| ==> s[i] == SLASH
  }

  /** A requisite survives normalisation however many slashes follow it on its line. */
  lemma NormalisedRecovers(obj: CString, slashes: CString, rest: CString)
    requires NEWLINE !in obj && (obj == [] || obj[|obj| - 1] != SLASH)
    requires AllSlashes(slashes) && (rest == [] || rest[0] == NEWLINE)
    ensures Normalised(obj + slashes + rest) == obj
  {
    CutAtNewline(obj + slashes, rest);
    StripAll(obj, slashes);
  }

  lemma {:induction false} CutAtNewline(s: CString, rest: CString)
    requires NEWLINE !in s && (rest == [] || rest[0] == NEWLINE)
    ensures BeforeNewline(s + rest) == s
  {
    if s == [] {
      assert s + rest == rest;
    } else {
      assert (s + rest)[1..] == s[1..] + rest;
      CutAtNewline(s[1..], rest);
    }
  }

  lemma {:induction false} StripAll(obj: CString, slashes: CString)
    requires (obj == [] || obj[|obj| - 1] != SLASH) && AllSlashes(slashes)
    ensures WithoutTrailingSlashes(obj + slashes) == obj
  {
    if slashes == [] {
      assert obj + slashes == obj;
    } else {
      var init := slashes[..|slashes| - 1];
      assert (obj + slashes)[..|obj + slashes| - 1] == obj + init;
      StripAll(obj, init);
    }
  }

  lemma {:induction false} NormalisedShrinks(line: CString)
    ensures |Normalised(line)| <= |line|
  {
    BeforeNewlineShrinks(line);
    StripShrinks(BeforeNewline(line));
  }

  lemma {:induction false} BeforeNewlineShrinks(line: CString)
    ensures |BeforeNewline(line)| <= |line|
  {
    if line != [] { BeforeNewlineShrinks(line[1..]); }
  }

  lemma {:induction false} StripShrinks(line: CString)
    ensures |WithoutTrailingSlashes(line)| <= |line|
  {
    if line != [] { StripShrinks(line[..|line| - 1]); }
  }

  // ---------------------------------------------------------------------------
  // The load loop
  // ---------------------------------------------------------------------------

  /** Store the normalised lines in turn, until one is refused. */
  ghost function StoreLines(t: Table, lines: seq<CString>): (t': Table)
    requires |t| > 0
    ensures |t'| == |t|
    decreases |lines|
  {
    if lines == [] || Store(t, Normalised(lines[0])).None? then t
    else StoreLines(Store(t, Normalised(lines[0])).value, lines[1..])
  }

  ghost function StoreIfRoom(t: Table, key: CString): (t': Table)
    requires |t| > 0
    ensures |t'| == |t|
  {
    if Store(t, key).Some? then Store(t, key).value else t
  }

  ghost function StoreIfPresent(t: Table, key: Option<CString>): Table
    requires |t| > 0
  {
    if key.Some? then StoreIfRoom(t, key.value) else t
  }

  ghost function Loaded(lines: seq<CString>, buildOut: Option<CString>): (t: Table) {
    StoreIfPresent(StoreIfRoom(StoreLines(EmptyTable(), lines), SENTINEL), buildOut)
  }

  /** Everything the closure is meant to contain. */
  ghost function ClosureKeys(lines: seq<CString>, buildOut: Option<CString>): set<CString> {
    LineKeys(lines) + {SENTINEL} + (if buildOut.Some? then {buildOut.value} else {})
  }

  ghost function LineKeys(lines: seq<CString>): set<CString> {
    set line | line in lines :: Normalised(line)
  }

  lemma FullStaysFull(t: Table, key: CString)
    requires |t| > 0
    ensures |StoreIfRoom(t, key)| == |t|
    ensures Store(t, key).None? <==> Size(t) == |t|
    ensures Size(t) <= Size(StoreIfRoom(t, key))
  {
    if Store(t, key).Some? {
      RoomStops(t, key, Storing);
      var i := Landing(t, key, Storing);
      if t[i].Empty? { FillingGrows(t, i, Truncated(key)); }
    }
  }

  lemma FirstLineKey(lines: seq<CString>)
    requires lines != []
    ensures LineKeys(lines) == {Normalised(lines[0])} + LineKeys(lines[1..])
  {
    forall key ensures key in LineKeys(lines)
                       <==> key == Normalised(lines[0]) || key in LineKeys(lines[1..])
    {
      assert forall line :: line in lines <==> line == lines[0] || line in lines[1..];
    }
  }

  /** The keys in the table after `StoreLines`. */
  ghost function KeysAfterLines(t: Table, keys: set<CString>, lines: seq<CString>): set<CString>
    requires |t| > 0
    decreases |lines|
  {
    if lines == [] || Store(t, Normalised(lines[0])).None? then keys
    else KeysAfterLines(Store(t, Normalised(lines[0])).value, keys + {Normalised(lines[0])}, lines[1..])
  }

  lemma {:induction false} LinesRepresented(t: Table, keys: set<CString>, lines: seq<CString>)
    requires |t| > 0 && Represents(t, keys)
    ensures Represents(StoreLines(t, lines), KeysAfterLines(t, keys, lines))
    decreases |lines|
  {
    if lines != [] {
      var key := Normalised(lines[0]);
      if Store(t, key).Some? {
        StoreRepresents(t, keys, key);
        LinesRepresented(Store(t, key).value, keys + {key}, lines[1..]);
      }
    }
  }

  lemma {:induction false} KeysAfterLinesBounds(t: Table, keys: set<CString>, lines: seq<CString>)
    requires |t| > 0
    ensures keys <= KeysAfterLines(t, keys, lines) <= keys + LineKeys(lines)
    ensures Size(StoreLines(t, lines)) < |t| ==> KeysAfterLines(t, keys, lines) == keys + LineKeys(lines)
    decreases |lines|
  {
    if lines == [] {
      assert LineKeys(lines) == {};
    } else {
      var key := Normalised(lines[0]);
      FullStaysFull(t, key);
      FirstLineKey(lines);
      if Store(t, key).Some? {
        KeysAfterLinesBounds(Store(t, key).value, keys + {key}, lines[1..]);
      }
    }
  }

  ghost function KeysIfRoom(t: Table, keys: set<CString>, key: CString): set<CString>
    requires |t| > 0
  {
    if Store(t, key).Some? then keys + {key} else keys
  }

  lemma OneMoreRepresented(t: Table, keys: set<CString>, key: CString)
    requires |t| > 0 && Represents(t, keys)
    ensures Represents(StoreIfRoom(t, key), KeysIfRoom(t, keys, key))
  {
    if Store(t, key).Some? {
      StoreRepresents(t, keys, key);
    }
  }

  /** The keys that the load gets into the table. */
  ghost function LoadedKeys(lines: seq<CString>, buildOut: Option<CString>): set<CString> {
    var t1, s1 := StoreLines(EmptyTable(), lines), KeysAfterLines(EmptyTable(), {}, lines);
    var t2, s2 := StoreIfRoom(t1, SENTINEL), KeysIfRoom(t1, s1, SENTINEL);
    if buildOut.Some? then KeysIfRoom(t2, s2, buildOut.value) else s2
  }

  lemma LoadedRepresents(lines: seq<CString>, buildOut: Option<CString>)
    ensures |Loaded(lines, buildOut)| == MAX_ENTRIES
    ensures Represents(Loaded(lines, buildOut), LoadedKeys(lines, buildOut))
  {
    LinesRepresented(EmptyTable(), {}, lines);
    var t1, s1 := StoreLines(EmptyTable(), lines), KeysAfterLines(EmptyTable(), {}, lines);
    OneMoreRepresented(t1, s1, SENTINEL);
    if buildOut.Some? {
      OneMoreRepresented(StoreIfRoom(t1, SENTINEL), KeysIfRoom(t1, s1, SENTINEL), buildOut.value);
    }
  }

  /** Loading stores nothing but the closure's keys; and if it leaves room, it stored all of them. */
  lemma LoadedKeysBounds(lines: seq<CString>, buildOut: Option<CString>)
    ensures LoadedKeys(lines, buildOut) <= ClosureKeys(lines, buildOut)
    ensures Size(Loaded(lines, buildOut)) < MAX_ENTRIES ==>
              LoadedKeys(lines, buildOut) == ClosureKeys(lines, buildOut)
  {
    KeysAfterLinesBounds(EmptyTable(), {}, lines);
    var t1 := StoreLines(EmptyTable(), lines);
    FullStaysFull(t1, SENTINEL);
    if buildOut.Some? {
      FullStaysFull(StoreIfRoom(t1, SENTINEL), buildOut.value);
    }
  }

  // ---------------------------------------------------------------------------
  // When the load leaves room
  // ---------------------------------------------------------------------------

  lemma {:induction false} LinesKeepNoDuplicates(t: Table, keys: set<CString>, lines: seq<CString>)
    requires |t| > 0 && Represents(t, keys) && NoDuplicates(t)
    requires AllFit(keys + LineKeys(lines))
    ensures NoDuplicates(StoreLines(t, lines))
    decreases |lines|
  {
    if lines != [] {
      var key := Normalised(lines[0]);
      FirstLineKey(lines);
      assert key in keys + LineKeys(lines);
      if Store(t, key).Some? {
        StoreRepresents(t, keys, key);
        StoreKeepsNoDuplicates(t, keys, key);
        LinesKeepNoDuplicates(Store(t, key).value, keys + {key}, lines[1..]);
      }
    }
  }

  lemma OneMoreKeepsNoDuplicates(t: Table, keys: set<CString>, key: CString)
    requires |t| > 0 && Represents(t, keys) && NoDuplicates(t) && AllFit(keys + {key})
    ensures NoDuplicates(StoreIfRoom(t, key))
  {
    assert key in keys + {key};
    if Store(t, key).Some? {
      StoreKeepsNoDuplicates(t, keys, key);
    }
  }

  lemma LoadedNoDuplicates(lines: seq<CString>, buildOut: Option<CString>)
    requires AllFit(ClosureKeys(lines, buildOut))
    ensures NoDuplicates(Loaded(lines, buildOut))
  {
    LinesRepresented(EmptyTable(), {}, lines);
    KeysAfterLinesBounds(EmptyTable(), {}, lines);
    LinesKeepNoDuplicates(EmptyTable(), {}, lines);
    var t1, s1 := StoreLines(EmptyTable(), lines), KeysAfterLines(EmptyTable(), {}, lines);
    OneMoreKeepsNoDuplicates(t1, s1, SENTINEL);
    OneMoreRepresented(t1, s1, SENTINEL);
    if buildOut.Some? {
      OneMoreKeepsNoDuplicates(StoreIfRoom(t1, SENTINEL), KeysIfRoom(t1, s1, SENTINEL), buildOut.value);
    }
  }

  /** Lines read by `fgets` into a buffer of PATH_MAX bytes give keys that fit. */
  lemma LinesFit(lines: seq<CString>, buildOut: Option<CString>)
    requires forall line :: line in lines ==> |line| < PATH_MAX
    requires buildOut.Some? ==> |buildOut.value| < PATH_MAX
    ensures AllFit(ClosureKeys(lines, buildOut))
  {
    forall key | key in LineKeys(lines) ensures |key| < PATH_MAX {
      var line :| line in lines && key == Normalised(line);
      NormalisedShrinks(line);
    }
  }

  /** Loading leaves room if and only if the closure has fewer than 4096 keys. */
  lemma LoadLeavesRoomIff(lines: seq<CString>, buildOut: Option<CString>)
    requires AllFit(ClosureKeys(lines, buildOut))
    ensures |Loaded(lines, buildOut)| == MAX_ENTRIES
    ensures Size(Loaded(lines, buildOut)) < MAX_ENTRIES <==> |ClosureKeys(lines, buildOut)| < MAX_ENTRIES
  {
    LoadedRepresents(lines, buildOut);
    LoadedKeysBounds(lines, buildOut);
    var stored := LoadedKeys(lines, buildOut);
    LoadedNoDuplicates(lines, buildOut);
    SubsetSize(stored, ClosureKeys(lines, buildOut));
    SizeIsCardinality(Loaded(lines, buildOut), stored);
  }

  // ---------------------------------------------------------------------------
  // In the closure
  // ---------------------------------------------------------------------------

  /**
   The closure decides membership: with fewer than 4096 keys, a lookup returns for every
   path, and answers yes exactly for the paths beneath a store object of the closure,
   provided no other key shares the object's first 44 characters.
   */
  lemma LoadedDecidesClosure(lines: seq<CString>, buildOut: Option<CString>, path: CString)
    requires AllFit(ClosureKeys(lines, buildOut)) && |ClosureKeys(lines, buildOut)| < MAX_ENTRIES
    requires |path| < PATH_MAX
    requires StoreObject(path).Some? ==>
               PrefixIdentifies(ClosureKeys(lines, buildOut), StoreObject(path).value)
    ensures |Loaded(lines, buildOut)| == MAX_ENTRIES
    ensures StoreObject(path).Some? ==>
              SomeStop(Loaded(lines, buildOut), StoreObject(path).value, LookingUp)
    ensures Lookup(Loaded(lines, buildOut), path)
            <==> StoreObject(path).Some? && StoreObject(path).value in ClosureKeys(lines, buildOut)
  {
    LoadedRepresents(lines, buildOut);
    LoadedKeysBounds(lines, buildOut);
    var stored := LoadedKeys(lines, buildOut);
    LoadLeavesRoomIff(lines, buildOut);
    if StoreObject(path).Some? {
      RoomStops(Loaded(lines, buildOut), StoreObject(path).value, LookingUp);
      LookupIsMembership(Loaded(lines, buildOut), stored, path);
    }
  }

  /** Every path beneath a requisite is found, whatever shares its first 44 characters. */
  lemma RequisiteFound(lines: seq<CString>, buildOut: Option<CString>, path: CString, line: CString)
    requires AllFit(ClosureKeys(lines, buildOut)) && |ClosureKeys(lines, buildOut)| < MAX_ENTRIES
    requires |path| < PATH_MAX && line in lines && StoreObject(path) == Some(Normalised(line))
    ensures |Loaded(lines, buildOut)| == MAX_ENTRIES
    ensures SomeStop(Loaded(lines, buildOut), StoreObject(path).value, LookingUp)
    ensures Lookup(Loaded(lines, buildOut), path)
  {
    LoadedRepresents(lines, buildOut);
    LoadedKeysBounds(lines, buildOut);
    var stored := LoadedKeys(lines, buildOut);
    LoadLeavesRoomIff(lines, buildOut);
    RoomStops(Loaded(lines, buildOut), StoreObject(path).value, LookingUp);
    assert Normalised(line) in LineKeys(lines);
    LookupSound(Loaded(lines, buildOut), stored, path);
  }

  /**
   Looking up a path outside the closure, beneath a store object no key agrees with on 44
   characters, returns if and only if the closure has fewer than 4096 keys.
   */
  lemma OutsideLookupReturnsIff(lines: seq<CString>, buildOut: Option<CString>, path: CString)
    requires AllFit(ClosureKeys(lines, buildOut)) && StoreObject(path).Some?
    requires forall key :: key in ClosureKeys(lines, buildOut) ==> !AgreeOn44(key, StoreObject(path).value)
    ensures |Loaded(lines, buildOut)| == MAX_ENTRIES
    ensures ProbeHalts(Loaded(lines, buildOut), Hash(StoreObject(path).value, MAX_ENTRIES),
                       StoreObject(path).value, LookingUp)
            <==> |ClosureKeys(lines, buildOut)| < MAX_ENTRIES
  {
    LoadedRepresents(lines, buildOut);
    LoadedKeysBounds(lines, buildOut);
    var stored := LoadedKeys(lines, buildOut);
    LoadLeavesRoomIff(lines, buildOut);
    var t := Loaded(lines, buildOut);
    LookupReturnsIff(t, StoreObject(path).value);
    forall i | 0 <= i < |t| && t[i].Filled? ensures !AgreeOn44(t[i].key, StoreObject(path).value) {
      assert Stored(stored, t[i].key);
      var key :| key in stored && t[i].key == Truncated(key);
      assert key in ClosureKeys(lines, buildOut);
    }
  }

  // ---------------------------------------------------------------------------
  // A full closure
  // ---------------------------------------------------------------------------

  /** A requisite told apart from 4095 others by the two characters behind its prefix. */
  function NumberedLine(prefix: CString, i: nat): CString
    requires i < MAX_ENTRIES
  {
    prefix + [65 + i / 64, 65 + i % 64]
  }

  function NumberedLines(prefix: CString): (lines: seq<CString>)
    ensures |lines| == MAX_ENTRIES
  {
    seq(MAX_ENTRIES, i requires 0 <= i < MAX_ENTRIES => NumberedLine(prefix, i))
  }

  lemma NumberedDistinct(prefix: CString)
    ensures Distinct(NumberedLines(prefix))
  {
    forall i, j | 0 <= i < j < MAX_ENTRIES ensures NumberedLine(prefix, i) != NumberedLine(prefix, j) {
      var a, b, n := NumberedLine(prefix, i), NumberedLine(prefix, j), |prefix|;
      assert a[n] == 65 + i / 64 && a[n + 1] == 65 + i % 64;
      assert b[n] == 65 + j / 64 && b[n + 1] == 65 + j % 64;
    }
  }

  lemma NumberedKeys(prefix: CString)
    requires NEWLINE !in prefix
    ensures LineKeys(NumberedLines(prefix)) == Elements(NumberedLines(prefix))
  {
    forall line | line in NumberedLines(prefix) ensures Normalised(line) == line {
      NormalisedRecovers(line, [], []);
      assert line + [] + [] == line;
    }
  }

  lemma NumberedCount(prefix: CString)
    requires NEWLINE !in prefix
    ensures |ClosureKeys(NumberedLines(prefix), None)| >= MAX_ENTRIES
  {
    var lines := NumberedLines(prefix);
    NumberedDistinct(prefix);
    NumberedKeys(prefix);
    DistinctCount(lines);
    SubsetSize(LineKeys(lines), ClosureKeys(lines, None));
  }

  lemma NumberedDisagree(prefix: CString, obj: CString)
    requires |prefix| == STORE_PREFIX && NEWLINE !in prefix
    requires |obj| >= STORE_PREFIX && obj[..STORE_PREFIX] != prefix
    ensures forall key :: key in ClosureKeys(NumberedLines(prefix), None) ==> !AgreeOn44(key, obj)
  {
    NumberedKeys(prefix);
    forall line | line in NumberedLines(prefix) ensures !AgreeOn44(line, obj) {
      assert line[..STORE_PREFIX] == prefix;
    }
  }

  /**
   A closure that makes a lookup loop forever: 4096 requisites that share any 44-character
   prefix, and a path beneath any store object with another one.
   */
  lemma FullClosureHangs(prefix: CString, path: CString)
    requires |prefix| == STORE_PREFIX && NEWLINE !in prefix
    requires StoreObject(path).Some? && StoreObject(path).value[..STORE_PREFIX] != prefix
    ensures forall line :: line in NumberedLines(prefix) ==> |line| < PATH_MAX
    ensures |Loaded(NumberedLines(prefix), None)| == MAX_ENTRIES
    ensures !ProbeHalts(Loaded(NumberedLines(prefix), None), Hash(StoreObject(path).value, MAX_ENTRIES),
                        StoreObject(path).value, LookingUp)
  {
    var lines := NumberedLines(prefix);
    NumberedCount(prefix);
    NumberedDisagree(prefix, StoreObject(path).value);
    LinesFit(lines, None);
    OutsideLookupReturnsIff(lines, None, path);
  }

  // ---------------------------------------------------------------------------
  // The program
  // ---------------------------------------------------------------------------

  method StripTrailingSlashes(line: CString) returns (stripped: CString)
    ensures stripped == WithoutTrailingSlashes(line)
  {
    var len := |line|;
    assert line[..len] == line;
    while len > 0 && line[len - 1] == SLASH
      invariant 0 <= len <= |line|
      invariant WithoutTrailingSlashes(line[..len]) == WithoutTrailingSlashes(line)
    {
      assert line[..len][..len - 1] == line[..len - 1];
      len := len - 1;
    }
    stripped := line[..len];
  }

  method ClosureTableInit(lines: seq<CString>, buildOut: Option<CString>) returns (table: HashTable)
    ensures fresh(table) && fresh(table.entries) && table.Valid()
    ensures table.Contents() == Loaded(lines, buildOut)
  {
    table := new HashTable(MAX_ENTRIES);
    assert table.Contents() == EmptyTable();
    var i := 0;
    var full := false;
    while i < |lines| && !full
      invariant 0 <= i <= |lines| && table.Valid() && fresh(table) && fresh(table.entries)
      invariant StoreLines(EmptyTable(), lines)
                == if full then table.Contents() else StoreLines(table.Contents(), lines[i..])
    {
      ghost var before := table.Contents();
      assert lines[i..][0] == lines[i] && lines[i..][1..] == lines[i + 1..];
      var line := StripTrailingSlashes(BeforeNewline(lines[i]));
      var ok := table.Store(line);
      full := !ok;
      i := i + 1;
    }
    assert table.Contents() == StoreLines(EmptyTable(), lines);
    var ok := table.Store(SENTINEL);
    if buildOut.Some? {
      ok := table.Store(buildOut.value);
    }
  }

  /**
   `in_closure`: without a table nothing is in the closure; an unresolvable path is let
   through for the system call to refuse.
   */
  method InClosure(table: HashTable?, resolved: Option<CString>) returns (allowed: bool)
    requires table != null ==> table.Valid()
    requires resolved.Some? ==> |resolved.value| < PATH_MAX
    requires table != null && resolved.Some? && StoreObject(resolved.value).Some? ==>
               SomeStop(table.Contents(), StoreObject(resolved.value).value, LookingUp)
    ensures table == null ==> !allowed
    ensures table != null ==>
              (allowed <==> resolved.None? || ClosureTable.Lookup(table.Contents(), resolved.value))
  {
    if table == null {
      return false;
    }
    if resolved.None? {
      return true;
    }
    allowed := table.Lookup(resolved.value);
  }
}
