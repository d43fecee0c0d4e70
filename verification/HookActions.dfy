/**
 The prompt-hook mailbox: one file per shell, written by commands and read, once, by the
 shell's next prompt.
 */
module HookActions {
  import opened Options
  import opened Decimal
  import Activation

  type Pid = Activation.Pid

  datatype Action = Deactivate(activationStateDir: string, floxEnv: string)

  /** What a file holds: a version-1 document, or anything that does not parse as one. */
  datatype Contents = Document(actions: seq<Action>) | Unparseable

  type Files = map<string, Contents>

  function HookActionsPath(runtimeDir: string, shellPid: Pid): string {
    runtimeDir + "/prompt-hook-actions/" + IntText(shellPid) + ".json"
  }

  lemma PathInjective(runtimeDir: string, p: Pid, q: Pid)
    requires HookActionsPath(runtimeDir, p) == HookActionsPath(runtimeDir, q)
    ensures p == q
  {
    var head := runtimeDir + "/prompt-hook-actions/";
    var a, b := HookActionsPath(runtimeDir, p), HookActionsPath(runtimeDir, q);
    assert a[|head|..|a| - 5] == IntText(p) && b[|head|..|b| - 5] == IntText(q);
    IntTextInjective(p, q);
  }

  // ---------------------------------------------------------------------------
  // The program
  // ---------------------------------------------------------------------------

  class RuntimeDir {
    const path: string
    var files: Files

    constructor (path: string)
      ensures this.path == path && files == map[]
    {
      this.path := path;
      files := map[];
    }

    /** Replaces the file atomically: an unread earlier document is lost. */
    method WriteHookActions(shellPid: Pid, actions: seq<Action>)
      modifies this
      ensures files == Apply(old(files), path, Write(shellPid, actions))
    {
      files := files[HookActionsPath(path, shellPid) := Document(actions)];
    }

    /** Consumes the file even when it does not parse. */
    method TakeHookActions(shellPid: Pid) returns (actions: seq<Action>)
      modifies this
      ensures files == Apply(old(files), path, Take(shellPid))
      ensures actions == ActionsOf(Find(old(files), HookActionsPath(path, shellPid)))
    {
      var file := HookActionsPath(path, shellPid);
      if file !in files {
        assert files == files - {file};
        return [];
      }
      var contents := files[file];
      files := files - {file};
      match contents
      case Document(found) => return found;
      case Unparseable => return [];
    }
  }

  function Find(files: Files, file: string): Option<Contents> {
    if file in files then Some(files[file]) else None
  }

  function ActionsOf(contents: Option<Contents>): seq<Action> {
    if contents.Some? && contents.value.Document? then contents.value.actions else []
  }

  // ---------------------------------------------------------------------------
  // Histories
  // ---------------------------------------------------------------------------

  /** What may happen to the mailbox; `Corrupt` is any outside write that does not parse. */
  datatype Operation =
    | Write(pid: Pid, actions: seq<Action>)
    | Corrupt(pid: Pid)
    | Take(pid: Pid)

  function Apply(files: Files, dir: string, op: Operation): Files {
    var file := HookActionsPath(dir, op.pid);
    match op
    case Write(_, actions) => files[file := Document(actions)]
    case Corrupt(_) => files[file := Unparseable]
    case Take(_) => files - {file}
  }

  function FilesAfter(dir: string, ops: seq<Operation>): Files {
    if ops == [] then map[] else Apply(FilesAfter(dir, ops[..|ops| - 1]), dir, ops[|ops| - 1])
  }

  /** What the `i`-th operation, a take, returns. */
  function Returned(dir: string, ops: seq<Operation>, i: nat): seq<Action>
    requires i < |ops|
  {
    ActionsOf(Find(FilesAfter(dir, ops[..i]), HookActionsPath(dir, ops[i].pid)))
  }

  /** The index of the latest write for `pid` that no later take has consumed. */
  function LatestUntaken(ops: seq<Operation>, pid: Pid): (k: Option<nat>)
    ensures k.Some? ==> k.value < |ops| && ops[k.value].pid == pid && !ops[k.value].Take?
    ensures k.Some? ==> forall i :: k.value < i < |ops| ==> ops[i].pid != pid
    ensures k.None? ==> forall i :: 0 <= i < |ops| && ops[i].pid == pid && !ops[i].Take? ==>
                          exists j :: i < j < |ops| && ops[j] == Take(pid)
  {
    if ops == [] then None else
      var last := |ops| - 1;
      if ops[last].pid != pid then
        assert forall j :: 0 <= j < last ==> ops[..last][j] == ops[j];
        LatestUntaken(ops[..last], pid)
      else if ops[last].Take? then None
      else Some(last)
  }

  function Written(op: Operation): Contents
    requires !op.Take?
  {
    if op.Write? then Document(op.actions) else Unparseable
  }

  /** A shell's file holds exactly its latest untaken write; no other shell's operations touch it. */
  lemma {:induction false} MailboxHoldsLatestUntaken(dir: string, ops: seq<Operation>, pid: Pid)
    ensures Find(FilesAfter(dir, ops), HookActionsPath(dir, pid))
            == if LatestUntaken(ops, pid).Some? then Some(Written(ops[LatestUntaken(ops, pid).value]))
               else None
  {
    if ops != [] {
      var init, last := ops[..|ops| - 1], ops[|ops| - 1];
      MailboxHoldsLatestUntaken(dir, init, pid);
      if last.pid != pid && HookActionsPath(dir, last.pid) == HookActionsPath(dir, pid) {
        PathInjective(dir, last.pid, pid);
      }
    }
  }

  /** A take returns the latest untaken write for its shell, or nothing. */
  lemma TakeReturnsLatestUntaken(dir: string, ops: seq<Operation>, i: nat)
    requires i < |ops| && ops[i].Take?
    ensures var source := LatestUntaken(ops[..i], ops[i].pid);
            Returned(dir, ops, i)
            == if source.Some? && ops[source.value].Write? then ops[source.value].actions else []
  {
    MailboxHoldsLatestUntaken(dir, ops[..i], ops[i].pid);
  }

  /** No write, parseable or not, is consumed by two takes. */
  lemma ReadOnce(ops: seq<Operation>, i: nat, j: nat)
    requires i < j < |ops| && ops[i].Take? && ops[j].Take?
    requires LatestUntaken(ops[..i], ops[i].pid).Some? && LatestUntaken(ops[..j], ops[j].pid).Some?
    ensures LatestUntaken(ops[..i], ops[i].pid) != LatestUntaken(ops[..j], ops[j].pid)
  {
    var a, b := LatestUntaken(ops[..i], ops[i].pid).value, LatestUntaken(ops[..j], ops[j].pid).value;
    assert ops[..i][a] == ops[a] && ops[..j][b] == ops[b] && ops[..j][i] == ops[i];
  }
}
