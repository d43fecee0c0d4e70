/**
 The policy of the sandbox as a whole: the textual tests on paths and the lookup in the closure
 table put together, and what they amount to in terms of path components and closure keys.
 */
module SandboxPolicy {
  import opened Options
  import opened ClosureHash
  import opened ClosureTable
  import opened ClosureLoad
  import opened SandboxPaths
  import opened SandboxWarnings

  datatype Closure = Closure(lines: seq<CString>, buildOut: Option<CString>)

  /** What the process found at initialisation; `closure` is absent if it could not be read. */
  datatype Policy = Policy(
    allowedDirs: seq<Option<CString>>, home: Option<CString>, closure: Option<Closure>)

  /** An intercepted call, with what only the system can tell about it. */
  datatype Call = Call(
    permittedProgram: bool, realPath: Option<CString>, matchesGlob: bool, executable: Executable,
    readlink: bool, directoryProbe: bool, isDirectory: bool, copied: bool)

  // ---------------------------------------------------------------------------
  // What the program computes
  // ---------------------------------------------------------------------------

  ghost function Table(c: Closure): ClosureTable.Table {
    Loaded(c.lines, c.buildOut)
  }

  ghost function Keys(c: Closure): set<CString> {
    ClosureKeys(c.lines, c.buildOut)
  }

  /** A closure of keys that fit, and few enough of them. */
  ghost predicate Fits(c: Closure) {
    AllFit(Keys(c)) && |Keys(c)| < MAX_ENTRIES
  }

  lemma FitsHasRoom(c: Closure)
    requires Fits(c)
    ensures |Table(c)| == MAX_ENTRIES && Size(Table(c)) < MAX_ENTRIES
  {
    LoadLeavesRoomIff(c.lines, c.buildOut);
  }

  ghost predicate Found(c: Closure, path: CString)
    requires Fits(c)
  {
    FitsHasRoom(c);
    assert StoreObject(path).Some? ==> SomeStop(Table(c), StoreObject(path).value, LookingUp) by {
      if StoreObject(path).Some? { RoomStops(Table(c), StoreObject(path).value, LookingUp); }
    }
    Lookup(Table(c), path)
  }

  /** The tests of `sandbox_check_path` on a call. */
  ghost function AccessOf(p: Policy, call: Call): Access
    requires p.closure.Some? ==> Fits(p.closure.value)
  {
    var known, path := call.realPath.Some?, if call.realPath.Some? then call.realPath.value else [];
    Access(
      call.permittedProgram, call.realPath,
      known && (exists i :: 0 <= i < |p.allowedDirs| && p.allowedDirs[i].Some? && Within(path, p.allowedDirs[i].value)),
      call.matchesGlob,
      known && p.closure.Some? && Found(p.closure.value, path),
      call.executable, call.readlink, call.directoryProbe, call.isDirectory,
      known && p.home.Some? && HomeDotfile(path, p.home.value),
      call.copied)
  }

  // ---------------------------------------------------------------------------
  // What it is meant to compute
  // ---------------------------------------------------------------------------

  ghost predicate AllCanonical(p: Policy, call: Call) {
    && (call.realPath.Some? ==> Canonical(call.realPath.value) && |call.realPath.value| < PATH_MAX)
    && (p.home.Some? ==> Canonical(p.home.value))
    && (forall i :: 0 <= i < |p.allowedDirs| && p.allowedDirs[i].Some? ==> Canonical(p.allowedDirs[i].value))
  }

  /** Where the path lies beneath a store object, its first 44 characters tell it from other keys. */
  ghost predicate Identified(p: Policy, call: Call) {
    p.closure.Some? && call.realPath.Some? && StoreObject(call.realPath.value).Some? ==>
      PrefixIdentifies(Keys(p.closure.value), StoreObject(call.realPath.value).value)
  }

  /** Some allowed directory contains the path, component by component. */
  ghost predicate InAllowedDir(p: Policy, path: CString)
    requires Canonical(path)
    requires forall i :: 0 <= i < |p.allowedDirs| && p.allowedDirs[i].Some? ==> Canonical(p.allowedDirs[i].value)
  {
    exists i :: 0 <= i < |p.allowedDirs| && AllowedBy(path, p.allowedDirs[i])
  }

  /** The path leads through a hidden entry of the home directory. */
  ghost predicate HiddenInHome(p: Policy, path: CString)
    requires Canonical(path) && (p.home.Some? ==> Canonical(p.home.value))
  {
    p.home.Some? &&
    var home, names := Components(p.home.value), Components(path);
    home != [] && home < names && Hidden(names[|home|])
  }

  ghost predicate BeneathClosure(p: Policy, path: CString) {
    p.closure.Some? && StoreObject(path).Some? && StoreObject(path).value in Keys(p.closure.value)
  }

  /** The call reads contents that the environment does not account for. */
  ghost predicate ForeignRead(p: Policy, call: Call)
    requires AllCanonical(p, call)
  {
    && !call.permittedProgram && call.realPath.Some? && !call.matchesGlob
    && !call.readlink && !call.directoryProbe && !call.isDirectory
    && !InAllowedDir(p, call.realPath.value)
    && !HiddenInHome(p, call.realPath.value)
    && !BeneathClosure(p, call.realPath.value)
  }

  // ---------------------------------------------------------------------------
  // They agree
  // ---------------------------------------------------------------------------

  lemma AllowedDirAgrees(p: Policy, path: CString)
    requires Canonical(path)
    requires forall i :: 0 <= i < |p.allowedDirs| && p.allowedDirs[i].Some? ==> Canonical(p.allowedDirs[i].value)
    ensures (exists i :: 0 <= i < |p.allowedDirs| && p.allowedDirs[i].Some? && Within(path, p.allowedDirs[i].value))
            <==> InAllowedDir(p, path)
  {
    forall i | 0 <= i < |p.allowedDirs| && p.allowedDirs[i].Some?
      ensures Within(path, p.allowedDirs[i].value) <==> AllowedBy(path, p.allowedDirs[i])
    {
      WithinIsComponentPrefix(Components(path), Components(p.allowedDirs[i].value));
    }
  }

  lemma DotfileAgrees(p: Policy, path: CString)
    requires Canonical(path) && (p.home.Some? ==> Canonical(p.home.value))
    ensures p.home.Some? && HomeDotfile(path, p.home.value) <==> HiddenInHome(p, path)
  {
    if p.home.Some? {
      HomeDotfileIsHiddenEntry(Components(path), Components(p.home.value));
    }
  }

  lemma ClosureAgrees(c: Closure, path: CString)
    requires Fits(c) && |path| < PATH_MAX
    requires StoreObject(path).Some? ==> PrefixIdentifies(Keys(c), StoreObject(path).value)
    ensures Found(c, path) <==> StoreObject(path).Some? && StoreObject(path).value in Keys(c)
  {
    LoadedDecidesClosure(c.lines, c.buildOut, path);
  }

  /** The levels at which a foreign read ends the process. */
  predicate Strict(level: Level) {
    level.Enforce? || level.Pure?
  }

  /** The sandbox has nothing to say about the call. */
  ghost predicate Exempt(level: Level, p: Policy, call: Call)
    requires AllCanonical(p, call)
  {
    || level.Off? || call.permittedProgram || call.realPath.None? || call.matchesGlob
    || InAllowedDir(p, call.realPath.value)
    || BeneathClosure(p, call.realPath.value)
  }

  lemma TestsAgree(p: Policy, call: Call)
    requires p.closure.Some? ==> Fits(p.closure.value)
    requires AllCanonical(p, call) && Identified(p, call) && call.realPath.Some?
    ensures var a := AccessOf(p, call);
            && a.inAllowedDir == InAllowedDir(p, call.realPath.value)
            && a.homeDotfile == HiddenInHome(p, call.realPath.value)
            && a.inClosure == BeneathClosure(p, call.realPath.value)
  {
    AllowedDirAgrees(p, call.realPath.value);
    DotfileAgrees(p, call.realPath.value);
    if p.closure.Some? { ClosureAgrees(p.closure.value, call.realPath.value); }
  }

  /**
   At every level, a call is let through in silence, and nothing remembered of it, exactly if
   the sandbox is off, the program is permitted, the path does not resolve, a pattern allows
   it, or it lies in an allowed directory or beneath a store object of the closure.
   */
  lemma AllowedIff(level: Level, m: Memory, p: Policy, call: Call)
    requires p.closure.Some? ==> Fits(p.closure.value)
    requires AllCanonical(p, call) && Identified(p, call)
    ensures CheckPath(level, m, AccessOf(p, call)).0.verdict.Allowed? <==> Exempt(level, p, call)
    ensures Exempt(level, p, call) ==> CheckPath(level, m, AccessOf(p, call)) == (Outcome(Allowed, []), m)
  {
    if call.realPath.Some? { TestsAgree(p, call); }
  }

  /**
   At every level, a call is fatal exactly when the level is strict and it reads contents of
   a file that lies in no allowed directory, is no hidden entry of the home, and lies beneath
   no store object of the closure; whatever has been printed and remembered before.
   */
  lemma FatalIff(level: Level, m: Memory, p: Policy, call: Call)
    requires p.closure.Some? ==> Fits(p.closure.value)
    requires AllCanonical(p, call) && Identified(p, call)
    ensures var o := CheckPath(level, m, AccessOf(p, call)).0;
            && (o.verdict.Fatal? <==> Strict(level) && ForeignRead(p, call))
            && (o.verdict.Fatal? ==> && o.verdict.path == call.realPath.value
                                     && o.messages != [] && o.messages[|o.messages| - 1] == PathError(o.verdict.path))
            && (!o.verdict.Fatal? ==> forall path :: PathError(path) !in o.messages)
  {
    if call.realPath.Some? { TestsAgree(p, call); }
  }

  /**
   Any other call is let through as an exception, under its own heading, and a warning with
   that heading is printed exactly if the path is not among those remembered.
   */
  lemma ExceptionIff(level: Level, m: Memory, p: Policy, call: Call, reason: Reason)
    requires p.closure.Some? ==> Fits(p.closure.value)
    requires AllCanonical(p, call) && Identified(p, call) && !Exempt(level, p, call)
    ensures var o, path := CheckPath(level, m, AccessOf(p, call)).0, call.realPath.value;
            && (o.verdict == Permitted(path, reason, path !in m.recorded)
                <==> match reason
                     case SymlinkRead => call.readlink
                     case DirectoryProbe => !call.readlink && call.directoryProbe
                     case DirectoryListing => !call.readlink && !call.directoryProbe && call.isDirectory
                     case Dotfile => && !call.readlink && !call.directoryProbe && !call.isDirectory
                                     && HiddenInHome(p, path)
                     case ContentRead => level.Warn? && ForeignRead(p, call))
            && (o.verdict.Permitted? ==> && o.verdict.path == path && o.verdict.warned == (path !in m.recorded)
                                         && (o.verdict.warned <==> PathWarning(path, o.verdict.reason) in o.messages))
  {
    TestsAgree(p, call);
    var o, path := CheckPath(level, m, AccessOf(p, call)).0, call.realPath.value;
    if o.verdict.Permitted? && o.verdict.warned {
      assert o.messages[|Report(m.reported, call.executable)|] == PathWarning(path, o.verdict.reason);
    }
  }

  /** A process survives if and only if the level is not strict or none of its calls is a foreign read. */
  lemma {:induction false} SurvivesIff(level: Level, m: Memory, p: Policy, calls: seq<Call>, accesses: seq<Access>)
    requires p.closure.Some? ==> Fits(p.closure.value)
    requires forall i :: 0 <= i < |calls| ==> AllCanonical(p, calls[i]) && Identified(p, calls[i])
    requires |accesses| == |calls| && forall i :: 0 <= i < |calls| ==> accesses[i] == AccessOf(p, calls[i])
    ensures (forall o :: o in Outcomes(level, m, accesses) ==> !o.verdict.Fatal?)
            <==> !Strict(level) || forall i :: 0 <= i < |calls| ==> !ForeignRead(p, calls[i])
    decreases |calls|
  {
    if calls != [] {
      var (o, m') := CheckPath(level, m, accesses[0]);
      FatalIff(level, m, p, calls[0]);
      var all := Outcomes(level, m, accesses);
      assert all[0] == o;
      if !o.verdict.Fatal? {
        SurvivesIff(level, m', p, calls[1..], accesses[1..]);
        var rest := Outcomes(level, m', accesses[1..]);
        assert all == [o] + rest;
        assert forall x :: x in all <==> x == o || x in rest;
        assert forall i :: 0 < i < |calls| ==> calls[i] == calls[1..][i - 1];
        assert forall i :: 0 <= i < |calls[1..]| ==> calls[1..][i] == calls[i + 1];
      }
    }
  }

  /** Beneath a store object is beneath it component by component. */
  lemma StoreObjectIsComponentPrefix(path: seq<CString>, obj: seq<CString>)
    requires AreNames(path) && AreNames(obj) && obj != [] && |Rendered(obj)| >= STORE_PREFIX
    requires forall i :: STORE_PREFIX <= i < |Rendered(obj)| ==> Rendered(obj)[i] != SLASH
    ensures StoreObject(Rendered(path)) == Some(Rendered(obj)) <==> obj < path
  {
    var s, o := Rendered(path), Rendered(obj);
    WithinIsComponentPrefix(path, obj);
    if Within(s, o) && s != o { ObjectOfPath(o, s); }
    assert StoreObject(s) == Some(o) <==> Within(s, o) && s != o;
    ComponentsOfRendered(path);
    ComponentsOfRendered(obj);
    assert obj <= path && obj != path <==> obj < path;
  }
}
