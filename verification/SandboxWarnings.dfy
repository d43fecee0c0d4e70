/**
 The sandbox's verdicts on file accesses and what it prints, with the memory that keeps it
 from repeating itself: the table of warned paths and the guards of two one-time messages.
 */
module SandboxWarnings {
  import opened Options
  import opened ClosureHash
  import OneShotReport

  const WARNED_PATHS_MAX := 1024

  // ---------------------------------------------------------------------------
  // The table of warned paths
  // ---------------------------------------------------------------------------

  /** The paths recorded once `path` has been looked up; `copied` is whether `strdup` succeeded. */
  function Noted(recorded: seq<CString>, path: CString, copied: bool): seq<CString> {
    if path !in recorded && |recorded| < WARNED_PATHS_MAX && copied then recorded + [path] else recorded
  }

  class WarnedPaths {
    const paths: array<CString>
    var count: nat

    ghost predicate Valid()
      reads this, paths
    {
      && paths.Length == WARNED_PATHS_MAX && count <= WARNED_PATHS_MAX
      && Distinct(paths[..count])
    }

    ghost function Recorded(): seq<CString>
      requires Valid()
      reads this, paths
    {
      paths[..count]
    }

    constructor ()
      ensures Valid() && fresh(paths) && Recorded() == []
    {
      paths := new CString[WARNED_PATHS_MAX];
      count := 0;
    }

    method ShouldWarnForPath(path: CString, copied: bool) returns (firstTime: bool)
      requires Valid()
      modifies this, paths
      ensures Valid()
      ensures firstTime <==> path !in old(Recorded())
      ensures Recorded() == Noted(old(Recorded()), path, copied)
      ensures Recorded() == if firstTime && |old(Recorded())| < 1024 && copied then old(Recorded()) + [path]
                            else old(Recorded())
    {
      firstTime := true;
      var i := 0;
      while i < count && firstTime
        invariant 0 <= i <= count
        invariant firstTime ==> path !in paths[..i]
        invariant !firstTime ==> path in paths[..count]
      {
        if paths[i] == path {
          firstTime := false;
        }
        i := i + 1;
      }
      if firstTime && count < WARNED_PATHS_MAX {
        if copied {
          paths[count] := path;
          count := count + 1;
          assert paths[..count] == old(paths[..count]) + [path];
        }
      }
    }
  }

  // ---------------------------------------------------------------------------
  // Verdicts
  // ---------------------------------------------------------------------------

  datatype Level = Off | Warn | Enforce | Pure

  /** What resolving and testing the running executable yields at an access. */
  datatype Executable = Unresolved | Acceptable | Foreign

  /** One intercepted call: what the tests of `sandbox_check_path` find out about it. */
  datatype Access = Access(
    permittedProgram: bool, realPath: Option<CString>,
    inAllowedDir: bool, matchesGlob: bool, inClosure: bool, executable: Executable,
    readlink: bool, directoryProbe: bool, isDirectory: bool, homeDotfile: bool,
    copied: bool)

  datatype Reason = SymlinkRead | DirectoryProbe | DirectoryListing | Dotfile | ContentRead

  /** Let through silently; let through as an exception, perhaps with a warning; or fatal. */
  datatype Verdict =
    | Allowed
    | Permitted(path: CString, reason: Reason, warned: bool)
    | Fatal(path: CString)

  datatype Message =
    | ExecutableWarning
    | PathWarning(path: CString, reason: Reason)
    | DotfileHint
    | PathError(path: CString)

  /** What the process remembers: warned paths, the report's guard, the hint's 32-bit counter. */
  datatype Memory = Memory(recorded: seq<CString>, reported: bool, hints: nat)

  const NO_MEMORY := Memory([], false, 0)

  datatype Outcome = Outcome(verdict: Verdict, messages: seq<Message>)

  /** Why an access is of no concern to the sandbox at all. */
  predicate Unremarkable(level: Level, a: Access) {
    || level.Off? || a.permittedProgram || a.realPath.None?
    || a.inAllowedDir || a.matchesGlob || a.inClosure
  }

  function ReasonFor(a: Access): Reason {
    if a.readlink then SymlinkRead
    else if a.directoryProbe then DirectoryProbe
    else if a.isDirectory then DirectoryListing
    else if a.homeDotfile then Dotfile
    else ContentRead
  }

  /** What is printed about the executable. */
  function Report(reported: bool, executable: Executable): seq<Message> {
    if !reported && executable.Foreign? then [ExecutableWarning] else []
  }

  /** What is printed with a verdict that lets the access through as an exception. */
  function Warning(path: CString, reason: Reason, warned: bool, hints: nat): seq<Message> {
    if !warned then [] else
      [PathWarning(path, reason)] + if reason.Dotfile? && hints == 0 then [DotfileHint] else []
  }

  /** The verdict and what is printed, and the memory afterwards. */
  function CheckPath(level: Level, m: Memory, a: Access): (Outcome, Memory) {
    if Unremarkable(level, a) then (Outcome(Allowed, []), m) else
      var path, reason := a.realPath.value, ReasonFor(a);
      var report := Report(m.reported, a.executable);
      var m1 := m.(reported := m.reported || !a.executable.Unresolved?);
      if reason.ContentRead? && !level.Warn? then
        (Outcome(Fatal(path), report + [PathError(path)]), m1)
      else
        var warned := path !in m.recorded;
        var hints := if warned && reason.Dotfile? then (m.hints + 1) % OneShotReport.TWO_32 else m.hints;
        (Outcome(Permitted(path, reason, warned), report + Warning(path, reason, warned, m.hints)),
         m1.(recorded := Noted(m.recorded, path, a.copied), hints := hints))
  }

  /** With the sandbox off nothing is refused, printed or remembered. */
  lemma OffIsSilent(m: Memory, a: Access)
    ensures CheckPath(Off, m, a) == (Outcome(Allowed, []), m)
  {
  }

  /** The state of the sandboxed process, and everything printed so far. */
  class Process {
    const level: Level
    const table: WarnedPaths
    var done: bool
    var hinted: nat
    var printed: seq<Message>

    ghost predicate Valid()
      reads this, table, table.paths
    {
      table.Valid() && hinted < OneShotReport.TWO_32
    }

    ghost function Remembered(): Memory
      requires Valid()
      reads this, table, table.paths
    {
      Memory(table.Recorded(), done, hinted)
    }

    constructor (l: Level)
      ensures Valid() && fresh(table) && fresh(table.paths)
      ensures level == l && Remembered() == NO_MEMORY && printed == []
    {
      level, done, hinted, printed := l, false, 0, [];
      table := new WarnedPaths();
    }

    /** `maybe_report_process_outside_closure`: a failed resolution leaves the guard for later. */
    method MaybeReport(executable: Executable)
      modifies this`done, this`printed
      ensures done <==> old(done) || !executable.Unresolved?
      ensures printed == old(printed) + Report(old(done), executable)
    {
      if done || executable.Unresolved? {
        return;
      }
      done := true;
      if executable.Acceptable? {
        return;
      }
      printed := printed + [ExecutableWarning];
    }

    /** `home_dotfile_hint`, guarded by an atomic counter that wraps. */
    method MaybeHint()
      modifies this`hinted, this`printed
      ensures hinted == (old(hinted) + 1) % OneShotReport.TWO_32
      ensures printed == old(printed) + if old(hinted) == 0 then [DotfileHint] else []
    {
      var before := hinted;
      hinted := (hinted + 1) % OneShotReport.TWO_32;
      if before != 0 {
        return;
      }
      printed := printed + [DotfileHint];
    }

    /** Warn of `path` once, and after a dotfile's warning give the hint. */
    method Permit(path: CString, reason: Reason, copied: bool) returns (v: Verdict)
      requires Valid()
      modifies this`hinted, this`printed, table, table.paths
      ensures Valid()
      ensures var warned := path !in old(table.Recorded());
              && v == Permitted(path, reason, warned)
              && printed == old(printed) + Warning(path, reason, warned, old(hinted))
              && hinted == (if warned && reason.Dotfile? then (old(hinted) + 1) % OneShotReport.TWO_32 else old(hinted))
      ensures table.Recorded() == Noted(old(table.Recorded()), path, copied)
    {
      var warned := table.ShouldWarnForPath(path, copied);
      if warned {
        printed := printed + [PathWarning(path, reason)];
        if reason.Dotfile? {
          MaybeHint();
        }
      }
      return Permitted(path, reason, warned);
    }

    /** The part of `sandbox_check_path` that deals with a path outside the closure. */
    method CheckOutside(path: CString, a: Access) returns (v: Verdict)
      requires Valid()
      modifies this`hinted, this`printed, table, table.paths
      ensures Valid()
      ensures var reason, warned := ReasonFor(a), path !in old(table.Recorded());
              if reason.ContentRead? && !level.Warn? then
                && v == Fatal(path) && printed == old(printed) + [PathError(path)]
                && table.Recorded() == old(table.Recorded()) && hinted == old(hinted)
              else
                && v == Permitted(path, reason, warned)
                && printed == old(printed) + Warning(path, reason, warned, old(hinted))
                && table.Recorded() == Noted(old(table.Recorded()), path, a.copied)
                && hinted == (if warned && reason.Dotfile? then (old(hinted) + 1) % OneShotReport.TWO_32
                              else old(hinted))
    {
      if a.readlink {
        v := Permit(path, SymlinkRead, a.copied);
      } else if a.directoryProbe {
        v := Permit(path, DirectoryProbe, a.copied);
      } else if a.isDirectory {
        v := Permit(path, DirectoryListing, a.copied);
      } else if a.homeDotfile {
        v := Permit(path, Dotfile, a.copied);
      } else if level.Warn? {
        v := Permit(path, ContentRead, a.copied);
      } else {
        printed := printed + [PathError(path)];
        v := Fatal(path);
      }
    }

    method SandboxCheckPath(a: Access) returns (v: Verdict)
      requires Valid()
      modifies this, table, table.paths
      ensures Valid()
      ensures Remembered() == CheckPath(level, old(Remembered()), a).1
      ensures v == CheckPath(level, old(Remembered()), a).0.verdict
      ensures printed == old(printed) + CheckPath(level, old(Remembered()), a).0.messages
    {
      if level.Off? || a.permittedProgram || a.realPath.None? {
        return Allowed;
      }
      if a.inAllowedDir || a.matchesGlob || a.inClosure {
        return Allowed;
      }
      MaybeReport(a.executable);
      v := CheckOutside(a.realPath.value, a);
    }
  }

  // ---------------------------------------------------------------------------
  // Runs
  // ---------------------------------------------------------------------------

  /** The outcomes of a sequence of accesses; the process does not survive a fatal one. */
  function Outcomes(level: Level, m: Memory, accesses: seq<Access>): seq<Outcome>
    decreases |accesses|
  {
    if accesses == [] then [] else
      var (o, m') := CheckPath(level, m, accesses[0]);
      [o] + if o.verdict.Fatal? then [] else Outcomes(level, m', accesses[1..])
  }

  /** The memory before the access with index `i`. */
  function MemoryBefore(level: Level, m: Memory, accesses: seq<Access>, i: nat): Memory
    requires i <= |accesses|
    decreases i
  {
    if i == 0 then m
    else CheckPath(level, MemoryBefore(level, m, accesses, i - 1), accesses[i - 1]).1
  }

  lemma {:induction false} MemoryBeforeTail(level: Level, m: Memory, accesses: seq<Access>, i: nat)
    requires 0 < i <= |accesses|
    ensures MemoryBefore(level, m, accesses, i)
            == MemoryBefore(level, CheckPath(level, m, accesses[0]).1, accesses[1..], i - 1)
    decreases i
  {
    if i > 1 {
      MemoryBeforeTail(level, m, accesses, i - 1);
      assert accesses[1..][i - 2] == accesses[i - 1];
    }
  }

  lemma {:induction false} OutcomeAt(level: Level, m: Memory, accesses: seq<Access>, i: nat)
    requires i < |Outcomes(level, m, accesses)|
    ensures |Outcomes(level, m, accesses)| <= |accesses|
    ensures Outcomes(level, m, accesses)[i]
            == CheckPath(level, MemoryBefore(level, m, accesses, i), accesses[i]).0
    decreases |accesses|
  {
    var (o, m') := CheckPath(level, m, accesses[0]);
    if !o.verdict.Fatal? && |accesses| > 1 {
      var rest := Outcomes(level, m', accesses[1..]);
      if i > 0 {
        OutcomeAt(level, m', accesses[1..], i - 1);
        MemoryBeforeTail(level, m, accesses, i);
      } else if rest != [] {
        OutcomeAt(level, m', accesses[1..], 0);
      }
    }
  }

  lemma {:induction false} RecordedInv(level: Level, accesses: seq<Access>, i: nat)
    requires i <= |accesses|
    ensures Distinct(MemoryBefore(level, NO_MEMORY, accesses, i).recorded)
    ensures |MemoryBefore(level, NO_MEMORY, accesses, i).recorded| <= WARNED_PATHS_MAX
  {
    if i > 0 { RecordedInv(level, accesses, i - 1); }
  }

  /** A path recorded before access `i` was warned about in an earlier access. */
  lemma {:induction false} RecordedWasWarned(level: Level, accesses: seq<Access>, i: nat, path: CString)
    requires i <= |accesses| && path in MemoryBefore(level, NO_MEMORY, accesses, i).recorded
    ensures exists j :: 0 <= j < i && WarnsAt(level, accesses, j, path)
  {
    var before := MemoryBefore(level, NO_MEMORY, accesses, i - 1).recorded;
    if path in before {
      RecordedWasWarned(level, accesses, i - 1, path);
    } else {
      WarnedMessage(level, accesses, i - 1, path);
      assert WarnsAt(level, accesses, i - 1, path);
    }
  }

  /** What access `j` of a run that starts without memory comes to. */
  function RunOutcome(level: Level, accesses: seq<Access>, j: nat): Outcome
    requires j < |accesses|
  {
    CheckPath(level, MemoryBefore(level, NO_MEMORY, accesses, j), accesses[j]).0
  }

  /** The access with index `j` prints a warning for `path`. */
  predicate WarnsAt(level: Level, accesses: seq<Access>, j: nat, path: CString)
    requires j < |accesses|
  {
    exists k :: 0 <= k < |RunOutcome(level, accesses, j).messages|
                && IsWarningFor(RunOutcome(level, accesses, j).messages[k], path)
  }

  predicate IsWarningFor(message: Message, path: CString) {
    message.PathWarning? && message.path == path
  }

  /** A warning is printed exactly with a verdict that says so. */
  lemma WarnedMessage(level: Level, accesses: seq<Access>, j: nat, path: CString)
    requires j < |accesses|
    ensures WarnsAt(level, accesses, j, path)
            <==> var v := RunOutcome(level, accesses, j).verdict;
                 v.Permitted? && v.path == path && v.warned
    ensures forall reason :: PathWarning(path, reason) in RunOutcome(level, accesses, j).messages
                             <==> RunOutcome(level, accesses, j).verdict == Permitted(path, reason, true)
  {
    var m, a := MemoryBefore(level, NO_MEMORY, accesses, j), accesses[j];
    var o := RunOutcome(level, accesses, j);
    if o.verdict.Permitted? && o.verdict.warned {
      var report := Report(m.reported, a.executable);
      assert o.messages[|report|] == PathWarning(o.verdict.path, o.verdict.reason);
    }
  }

  /** A path that is warned of was not recorded, and now is if there is room and the copy succeeds. */
  lemma WarnedIsRecorded(level: Level, accesses: seq<Access>, j: nat, path: CString)
    requires j < |accesses| && WarnsAt(level, accesses, j, path)
    ensures path !in MemoryBefore(level, NO_MEMORY, accesses, j).recorded
    ensures |MemoryBefore(level, NO_MEMORY, accesses, j).recorded| < WARNED_PATHS_MAX && accesses[j].copied ==>
              path in MemoryBefore(level, NO_MEMORY, accesses, j + 1).recorded
  {
    WarnedMessage(level, accesses, j, path);
    RecordedAfter(level, MemoryBefore(level, NO_MEMORY, accesses, j), accesses[j]);
  }

  lemma RecordedAfter(level: Level, m: Memory, a: Access)
    ensures var v := CheckPath(level, m, a).0.verdict;
            v.Permitted? ==> && v.warned == (v.path !in m.recorded)
                             && CheckPath(level, m, a).1.recorded == Noted(m.recorded, v.path, a.copied)
  {
  }

  lemma {:induction false} RecordedGrows(level: Level, accesses: seq<Access>, j: nat, i: nat, path: CString)
    requires j <= i <= |accesses| && path in MemoryBefore(level, NO_MEMORY, accesses, j).recorded
    ensures path in MemoryBefore(level, NO_MEMORY, accesses, i).recorded
    decreases i - j
  {
    if j < i { RecordedGrows(level, accesses, j, i - 1, path); }
  }

  /**
   Warnings are never lost: for every access permitted as an exception a warning with its
   real path is printed, at that access or before, and the first one for a path always warns.
   */
  lemma WarningNeverLost(level: Level, accesses: seq<Access>, i: nat)
    requires i < |Outcomes(level, NO_MEMORY, accesses)|
    requires Outcomes(level, NO_MEMORY, accesses)[i].verdict.Permitted?
    ensures |Outcomes(level, NO_MEMORY, accesses)| <= |accesses|
    ensures exists j :: 0 <= j <= i
              && WarnsAt(level, accesses, j, Outcomes(level, NO_MEMORY, accesses)[i].verdict.path)
  {
    OutcomeAt(level, NO_MEMORY, accesses, i);
    var v := Outcomes(level, NO_MEMORY, accesses)[i].verdict;
    if v.warned {
      WarnedMessage(level, accesses, i, v.path);
      assert WarnsAt(level, accesses, i, v.path);
    } else {
      RecordedWasWarned(level, accesses, i, v.path);
    }
  }

  /**
   Warnings are rarely repeated: a second warning for a path means that recording it failed
   the first time, for want of room among 1024 distinct paths or because the copy failed.
   */
  lemma WarningRarelyRepeated(level: Level, accesses: seq<Access>, j: nat, i: nat, path: CString)
    requires j < i < |accesses| && WarnsAt(level, accesses, j, path) && WarnsAt(level, accesses, i, path)
    ensures var before := MemoryBefore(level, NO_MEMORY, accesses, j).recorded;
            Distinct(before) && (|before| == 1024 || !accesses[j].copied)
  {
    RecordedInv(level, accesses, j);
    WarnedIsRecorded(level, accesses, j, path);
    WarnedIsRecorded(level, accesses, i, path);
    UnrecordedBefore(level, accesses, j + 1, i, path);
  }

  lemma UnrecordedBefore(level: Level, accesses: seq<Access>, j: nat, i: nat, path: CString)
    requires j <= i <= |accesses| && path !in MemoryBefore(level, NO_MEMORY, accesses, i).recorded
    ensures path !in MemoryBefore(level, NO_MEMORY, accesses, j).recorded
  {
    if path in MemoryBefore(level, NO_MEMORY, accesses, j).recorded {
      RecordedGrows(level, accesses, j, i, path);
    }
  }

  // ---------------------------------------------------------------------------
  // The one-time messages
  // ---------------------------------------------------------------------------

  /** Access `j` concerns the sandbox, and its executable could be resolved. */
  predicate Resolves(level: Level, accesses: seq<Access>, j: nat)
    requires j < |accesses|
  {
    !Unremarkable(level, accesses[j]) && !accesses[j].executable.Unresolved?
  }

  lemma {:induction false} ReportedIff(level: Level, accesses: seq<Access>, i: nat)
    requires i <= |accesses|
    ensures MemoryBefore(level, NO_MEMORY, accesses, i).reported
            <==> exists j :: 0 <= j < i && Resolves(level, accesses, j)
  {
    if i > 0 {
      ReportedIff(level, accesses, i - 1);
      assert MemoryBefore(level, NO_MEMORY, accesses, i).reported
        <==> MemoryBefore(level, NO_MEMORY, accesses, i - 1).reported || Resolves(level, accesses, i - 1);
    }
  }

  /**
   The executable is reported at the first access of concern at which it can be resolved,
   if it is foreign, and ahead of what is printed about the path; so it is reported once.
   */
  lemma ExecutableReportedOnce(level: Level, accesses: seq<Access>, i: nat)
    requires i < |accesses|
    ensures var messages := RunOutcome(level, accesses, i).messages;
            && (ExecutableWarning in messages
                <==> && Resolves(level, accesses, i) && accesses[i].executable.Foreign?
                     && forall j :: 0 <= j < i ==> !Resolves(level, accesses, j))
            && (forall k :: 0 < k < |messages| ==> messages[k] != ExecutableWarning)
    ensures ExecutableWarning in RunOutcome(level, accesses, i).messages ==>
              forall j :: i < j < |accesses| ==> ExecutableWarning !in RunOutcome(level, accesses, j).messages
  {
    var messages := RunOutcome(level, accesses, i).messages;
    ReportIsFirst(level, MemoryBefore(level, NO_MEMORY, accesses, i), accesses[i]);
    ReportedIff(level, accesses, i);
    forall j | i < j < |accesses| && Resolves(level, accesses, i)
      ensures ExecutableWarning !in RunOutcome(level, accesses, j).messages
    {
      ReportedIff(level, accesses, j);
      ReportIsFirst(level, MemoryBefore(level, NO_MEMORY, accesses, j), accesses[j]);
    }
  }

  lemma ReportIsFirst(level: Level, m: Memory, a: Access)
    ensures var messages := CheckPath(level, m, a).0.messages;
            && (ExecutableWarning in messages
                <==> !Unremarkable(level, a) && a.executable.Foreign? && !m.reported)
            && (forall k :: 0 < k < |messages| ==> messages[k] != ExecutableWarning)
  {
    var messages := CheckPath(level, m, a).0.messages;
    if !Unremarkable(level, a) && a.executable.Foreign? && !m.reported {
      assert messages[0] == ExecutableWarning;
    }
  }

  /** Access `j` prints a warning for a dotfile. */
  predicate WarnsOfDotfile(level: Level, accesses: seq<Access>, j: nat)
    requires j < |accesses|
  {
    IsDotfileWarning(RunOutcome(level, accesses, j).verdict)
  }

  predicate IsDotfileWarning(v: Verdict) {
    v.Permitted? && v.reason.Dotfile? && v.warned
  }

  /** How many of the first `i` accesses do. */
  function DotfileWarnings(level: Level, accesses: seq<Access>, i: nat): nat
    requires i <= |accesses|
  {
    if i == 0 then 0
    else if WarnsOfDotfile(level, accesses, i - 1) then DotfileWarnings(level, accesses, i - 1) + 1
    else DotfileWarnings(level, accesses, i - 1)
  }

  /** One step of counting, the wrap included. */
  lemma HintsAfter(level: Level, m: Memory, a: Access, n: nat)
    requires Wrapped(m.hints, n)
    ensures var (o, m') := CheckPath(level, m, a);
            Wrapped(m'.hints, if IsDotfileWarning(o.verdict) then n + 1 else n)
  {
    Wraps(n);
  }

  /** What a 32-bit counter shows after `n` increments. */
  predicate Wrapped(shown: nat, n: nat) {
    shown == n % OneShotReport.TWO_32
  }

  lemma Wraps(n: nat)
    ensures (n % OneShotReport.TWO_32 + 1) % OneShotReport.TWO_32 == (n + 1) % OneShotReport.TWO_32
  {
  }

  lemma {:induction false} HintsCount(level: Level, accesses: seq<Access>, i: nat)
    requires i <= |accesses|
    ensures Wrapped(MemoryBefore(level, NO_MEMORY, accesses, i).hints, DotfileWarnings(level, accesses, i))
  {
    if i > 0 {
      HintsCount(level, accesses, i - 1);
      var m, n := MemoryBefore(level, NO_MEMORY, accesses, i - 1), DotfileWarnings(level, accesses, i - 1);
      HintsAfter(level, m, accesses[i - 1], n);
      var (o, m') := CheckPath(level, m, accesses[i - 1]);
      assert WarnsOfDotfile(level, accesses, i - 1) == IsDotfileWarning(o.verdict);
      assert MemoryBefore(level, NO_MEMORY, accesses, i) == m';
    }
  }

  /**
   The hint follows the first dotfile warning, and after it only every 2^32nd: the counter
   that guards it wraps.
   */
  lemma HintIff(level: Level, accesses: seq<Access>, i: nat)
    requires i < |accesses|
    ensures DotfileHint in RunOutcome(level, accesses, i).messages
            <==> WarnsOfDotfile(level, accesses, i) && DotfileWarnings(level, accesses, i) % OneShotReport.TWO_32 == 0
  {
    HintsCount(level, accesses, i);
    var m, a, o := MemoryBefore(level, NO_MEMORY, accesses, i), accesses[i], RunOutcome(level, accesses, i);
    if WarnsOfDotfile(level, accesses, i) && m.hints == 0 {
      assert o.messages[|o.messages| - 1] == DotfileHint;
    }
  }

  // ---------------------------------------------------------------------------
  // Enforcing is warning, cut short
  // ---------------------------------------------------------------------------

  /** What becomes of the first permitted read of contents under a stricter level. */
  function MadeFatal(o: Outcome): Outcome
    requires o.verdict.Permitted?
  {
    Outcome(Fatal(o.verdict.path),
            (if ExecutableWarning in o.messages then [ExecutableWarning] else []) + [PathError(o.verdict.path)])
  }

  /** Outcomes up to the first permitted read of contents, that one made fatal. */
  function CutShort(outcomes: seq<Outcome>): seq<Outcome> {
    if outcomes == [] then []
    else if outcomes[0].verdict.Permitted? && outcomes[0].verdict.reason.ContentRead? then [MadeFatal(outcomes[0])]
    else [outcomes[0]] + CutShort(outcomes[1..])
  }

  /**
   The stricter levels follow warn mode, verdict by verdict and message by message, up to the
   first read of contents outside the closure, which they make fatal.
   */
  lemma {:induction false} EnforceCutsWarnShort(level: Level, m: Memory, accesses: seq<Access>)
    requires level.Enforce? || level.Pure?
    ensures Outcomes(level, m, accesses) == CutShort(Outcomes(Warn, m, accesses))
    decreases |accesses|
  {
    if accesses != [] {
      var (w, m') := CheckPath(Warn, m, accesses[0]);
      assert Outcomes(Warn, m, accesses) == [w] + Outcomes(Warn, m', accesses[1..]);
      EnforceCutsWarnShort(level, m', accesses[1..]);
      StricterOutcome(level, m, accesses[0]);
    }
  }

  lemma StricterOutcome(level: Level, m: Memory, a: Access)
    requires level.Enforce? || level.Pure?
    ensures var (w, m') := CheckPath(Warn, m, a);
            CheckPath(level, m, a)
            == if w.verdict.Permitted? && w.verdict.reason.ContentRead?
               then (MadeFatal(w), CheckPath(level, m, a).1) else (w, m')
  {
    ReportIsFirst(Warn, m, a);
  }
}
