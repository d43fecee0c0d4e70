# A verified model of Flox's shared state

This project models the parts of Flox where several processes or threads meet over shared
state, and proves what they may rely on:

- **Activations** (`Activation`, `ActivationObject`, `ActivationProtocol`, `ActivationEffects`,
  `ActivationCommands`, `CleanupSweep`, `StartDirectory`): shells that activate, attach to and detach
  from an environment through one locked `state.json`, while starters run hooks with the lock
  released, executives watch and clean up, and any process may die.
- **The closure table** (`ClosureHash`, `ClosureTable`, `ClosureTableObject`, `ClosureLoad`,
  `ClosureBuildOut`): the open-addressing hash table that decides whether a path belongs to an
  environment.
- **Telemetry** (`EventsBuffer`, `EventDelivery`): a bounded queue mirrored in a file and
  flushed in batches over a network that loses batches and acknowledgements.
- **The sandbox** (`SandboxPaths`, `SandboxWarnings`, `SandboxPolicy`, `OneShotReport`): path
  tests, verdicts with de-duplicated messages, the policy they add up to, and a report delivered
  once across threads.
- **Smaller pieces** (`HookActions`, `StartDiff`, `QuoteRunArgs`, `Decimal`): the prompt-hook
  mailbox, the environment difference as a patch, and shell quoting.

What the program updates in place is a class or a method with loops, proved against a function
on plain values; protocols are transition systems over those functions. `dafny verify
dfyconfig.toml` checks everything.

## Assumptions and findings

`ActivationProtocol` takes one step per locked section. The clock, pid liveness, new pids and
the network are parameters or arbitrary values; I/O errors are not modelled. Start directories
are identified with start identifiers, which `StartDirectory` justifies for store paths in one
directory. No freshness of timestamps is assumed.

Each condition the protocol puts on its environment is a predicate (`Disciplined`) that can be
evaluated before the step, and `StepKeepsInvIff` shows the conditions are exact. They matter:

- `detach` does not touch `ready` when it empties the map, so until the executive discards the
  file a new activation attaches to a start whose directory is gone (`AttachToRemovedDirectory`).
- An executive that dies while hooks run lets a second starter in beside the first
  (`TwoStartersAfterExecutiveDies`).
- `replace_attachment` onto the only holder of the ready start leaves `ready` unbacked
  (`ReplaceUnbacksReady`).
- A re-attach that moves the only holder of another start leaves that start's directory behind
  (`NoOrphansIff`, `DirectoryStranded`).
- A closure of 4096 keys or more fills the table, and a lookup of a path outside the closure
  then loops forever (`OutsideLookupReturnsIff`, and `FullClosureHangs` for such closures).
- Requisites are normalised before they are stored so that storing and looking up agree, but the
  build's own output path is not. Written with a slash behind its store object it is found only
  by way of a collision (`BuildOutFoundIff`), and without requisites never
  (`SlashedBuildOutMissed`).
- The guards of the one-time messages are 32-bit counters that wrap (`OneReportIff`, `HintIff`).
- An allowed directory `/` allows only `/` itself (`WithinIsComponentPrefix`).
- Empty arguments and most backslashes do not survive quoting (`QuotingRoundTripIff`,
  `BackslashIsLost`).
- The comment at package-builder/sandbox.c:658-661 calls the executable report fatal under
  enforce; the code only ever warns, and the model follows the code.

## Model

| member | source | states |
|---|---|---|
| `ActivationProtocol.StepKeepsInvIff` | cli/flox-core/src/activations.rs:456-710 | for every state satisfying the invariant and every possible step (activation, hook failure, ready mark, detach, re-attach, watcher cleanup, discard, spawn, death), the step keeps the invariant if and only if the caller respects the discipline |
| `ActivationProtocol.StarterMutualExclusion` | cli/flox-activations/src/start.rs:88-120 | in every reachable state at most one live process is between its start and `set_ready`, it is recorded as the starter and attached to its own start, and every other activation is told to wait and changes nothing exactly while the executive runs |
| `ActivationProtocol.StarterKeepsItsClaim` | cli/flox-core/src/activations.rs:461-468 | over every continuation in which the starter neither dies, fails nor finishes, `ready` stays `Starting` with its pid and start |
| `ActivationProtocol.NoUseAfterCleanup` | cli/flox-core/src/activations.rs:470-484 | an attach names a start for the requested store path whose directory exists with completed hooks if and only if somebody is attached at the call |
| `ActivationProtocol.AttachedDirectoriesExist` | cli/flox-activations/src/cli/detach.rs:54-68 | no attached process ever loses the directory of its start |
| `ActivationProtocol.WritesNeverRefused` | cli/flox-core/src/activations.rs:804-817 | the not-started guard of the write never fires, the ready mark always finds the file, and a successful activation leaves a running executive and an attached caller |
| `ActivationProtocol.OnlyDetachLeavesEmptied` | cli/flox-activations/src/cli/executive/watcher.rs:42-69 | a file with nobody attached arises exactly when a detach command removes the last pid; the watcher and the discard remove all start directories |
| `ActivationProtocol.ReachableInv` | cli/flox-activations/src/cli/activate.rs:187-252 | every state reached by a disciplined run satisfies the invariant |
| `ActivationProtocol.AttachToRemovedDirectory` | cli/flox-core/src/activations.rs:517-520 | a disciplined run after which an activation attaches to a removed directory |
| `ActivationProtocol.TwoStartersAfterExecutiveDies` | cli/flox-activations/src/cli/activate.rs:208-216 | a run in which the executive's death lets two processes run hooks at once |
| `ActivationProtocol.ReplaceUnbacksReady` | cli/flox-core/src/activations.rs:687-710 | for any two environments, a disciplined run after which a re-attach leaves the ready start referenced by nobody |
| `ActivationEffects.OutcomeIff` | cli/flox-core/src/activations.rs:456-484 | in every state a caller waits exactly for a starter that is alive under a live executive, attaches exactly to a ready start of its own store path, and otherwise starts at its own time; a dead starter blocks nobody |
| `ActivationEffects.OthersStayAttached` | cli/flox-core/src/activations.rs:597-615 | no step changes anybody's attachment but a detach, a cleanup of a stopped and expired pid, a re-attach or an activation that names it, and an activation without a running executive |
| `ActivationEffects.OnlyNamedBecomeAttached` | cli/flox-core/src/activations.rs:597-615 | nobody becomes attached but the caller of an activation and the new pid of a re-attach |
| `ActivationEffects.NamedAttachments` | cli/flox-core/src/activations.rs:687-710 | a re-attach records the given start and expiration and takes the old pid off; a detached pid is gone; a cleanup takes a pid off exactly if it does not run and no expiration lies ahead |
| `ActivationEffects.CallerIsAttached` | cli/flox-core/src/activations.rs:470-484 | a caller told to wait changes nothing, any other ends attached without expiration to the start it is told, and alone if there was no executive |
| `ActivationEffects.LiveProcessStaysAttached` | cli/flox-core/src/activations.rs:538-575 | over every disciplined run in which neither it nor the executive is disturbed, a live process keeps its attachment and its start's directory |
| `ActivationEffects.ReadyAfter` | cli/flox-core/src/activations.rs:493-527 | `ready` changes exactly by a start, by the mark that ends one, and by a detach that leaves somebody attached but nobody to the ready start |
| `ActivationEffects.ExecutiveAfter` | cli/flox-activations/src/start.rs:63-86 | only a start sets the executive: to the caller itself in a container, otherwise to a new process exactly if none runs |
| `ActivationEffects.HooksAfter` | cli/flox-activations/src/start.rs:88-120 | hooks run exactly from their process's start to its death, failure or ready mark |
| `ActivationEffects.FileAfter` | cli/flox-activations/src/cli/executive/watcher.rs:42-48 | the file goes exactly by a discard or by a cleanup that leaves nobody attached |
| `ActivationEffects.DirectoriesAfter` | cli/flox-activations/src/cli/detach.rs:54-64 | a start's directory exists exactly if it did or is now started, and neither its last process left, by command or cleanup, nor everything was discarded; likewise its completion |
| `ActivationEffects.NoOrphansIff` | cli/flox-activations/src/cli/executive/watcher.rs:50-61 | a step keeps every start directory in use if and only if it does not move the only holder of a start to another one, or reset the state for want of an executive |
| `ActivationEffects.DirectoryStranded` | cli/flox-core/src/activations.rs:687-710 | for any two environments, a disciplined run with a re-attach after which a directory is used by nobody |
| `Activation.IndexAgreesWithScan` | cli/flox-core/src/activations.rs:415-430 | the folded index has a start as key if and only if some attachment references it, and lists exactly those pids, ascending, with their expirations |
| `Activation.StartOrAttachKeepsReadyBacked` | cli/flox-core/src/activations.rs:456-484 | starting or attaching keeps the ready start referenced |
| `Activation.DetachBacksReady` | cli/flox-core/src/activations.rs:504-527 | after any detach a ready start is referenced or nobody is attached |
| `Activation.CleanupKeepsIff` | cli/flox-core/src/activations.rs:552-575 | a cleanup keeps an attached pid if and only if it runs or now is before its expiration, and keeps everybody else |
| `Activation.ReplaceKeepsReadyBackedIff` | cli/flox-core/src/activations.rs:687-710 | a successful replacement keeps the ready start referenced if and only if it does not re-attach its only holder elsewhere |
| `ActivationObject.ActivationState.StartOrAttach` | cli/flox-core/src/activations.rs:456-484 | waits for a live starter without change, or attaches the caller, without expiration and beside everybody else, to the ready start of its path, or records it as starter of a new one |
| `ActivationObject.ActivationState.UpdateReadyAfterDetach` | cli/flox-core/src/activations.rs:579-595 | computed through the folded index, `ready` is dropped exactly when a direct scan finds no reference |
| `ActivationObject.ActivationState.Detach` | cli/flox-core/src/activations.rs:504-527 | errors without change on an unattached pid, otherwise removes it and hands back its start if it was the last reference |
| `ActivationObject.ActivationState.CleanupPid` | cli/flox-core/src/activations.rs:538-575 | detaches exactly an attached pid that does not run and whose expiration, if any, has come, and leaves everybody else |
| `ActivationObject.ActivationState.ReplaceAttachment` | cli/flox-core/src/activations.rs:687-710 | succeeds if and only if the old pid holds the expected start; then the new pid holds it with the given expiration and everybody else is as before; on an error only the old pid may be gone |
| `ActivationCommands.StateDir.TryStartOrAttach` | cli/flox-activations/src/cli/activate.rs:187-252 | from any state the command takes exactly the protocol's activation step on the file and the start directories, executive pid included, and its write is never refused |
| `ActivationCommands.StateDir.FinishStart` | cli/flox-activations/src/start.rs:113-117 | takes the protocol's ready step, and fails without change exactly when the file is missing or names no executive |
| `ActivationCommands.StateDir.Detach` | cli/flox-activations/src/cli/detach.rs:29-71 | takes the protocol's detach step, does nothing without a file, and fails exactly on an unattached pid or a file without executive |
| `ActivationCommands.StateDir.Attach` | cli/flox-activations/src/cli/attach.rs:51-94 | takes the protocol's re-attach step exactly when one of its two options is given and the step is possible, and otherwise changes nothing |
| `ActivationCommands.TimeoutHolds` | cli/flox-activations/src/cli/attach.rs:71-77 | after an attach with a timeout and any run that does not concern the process, a cleanup keeps it if and only if it runs or less than the timeout has passed since the attach |
| `ActivationCommands.HandOverHolds` | cli/flox-activations/src/cli/attach.rs:79-84 | after an attach that removes another pid, that pid is gone and the process, holding its start, survives a cleanup if and only if it runs |
| `ActivationCommands.StateDir.CleanupPid` | cli/flox-activations/src/cli/executive/watcher.rs:32-69 | takes the protocol's cleanup step, or hands back an emptied state exactly where the protocol discards everything, having changed nothing |
| `ActivationCommands.StateDir.OnExit` | cli/flox-activations/src/cli/executive/mod.rs:374-400 | cleanup and removal under one lock are together the protocol's cleanup step, and fail only without a file or an executive in it |
| `ActivationCommands.StateDir.OnFileChanged` | cli/flox-activations/src/cli/executive/mod.rs:251-266 | takes the protocol's discard step exactly when it is possible |
| `CleanupSweep.SweepIsConfluent` | cli/flox-core/src/activations.rs:538-595 | cleaning every attached pid once, in any order, leaves exactly the pids that run or whose expiration lies after now, unchanged, hands back each start that lost all references exactly once, and, if anybody remains, gives an order-independent `ready` |
| `CleanupSweep.ReadyIndependentIff` | cli/flox-core/src/activations.rs:517-520 | `ready` depends on the order if and only if nobody remains and both the ready start and another start were referenced |
| `StartDirectory.StartDirectoriesCollideIff` | cli/flox-core/src/activations.rs:314-342 | one start's directory contains another's if and only if basenames and timestamps agree, whatever dots the basenames hold |
| `StartDirectory.StartDirectoriesNeverCollide` | cli/flox-core/src/activations.rs:314-342 | different starts of store paths in one directory never share or contain each other's directory |
| `StartDirectory.StartStateDir` | cli/flox-core/src/activations.rs:314-342 | the directory lies directly beneath the activation's, its name begins with the store path's file name, and a path without one is an error |
| `Decimal.IntTextInjective` | cli/flox-core/src/activations.rs:324-324 | different integers are formatted differently |
| `ClosureHash.ComputeHash` | package-builder/closure.c:87-94 | the loop computes the wrapping 64-bit accumulation reduced by the capacity |
| `ClosureHash.HashIsPolynomial` | package-builder/closure.c:42-94 | for every string and every capacity dividing 2^64 the hash is the unbounded base-31 polynomial reduced by the capacity |
| `ClosureTable.ProbeHaltsIff` | package-builder/closure.c:112-115 | a probe from any slot ends if and only if some slot of the table stops it |
| `ClosureTable.RoomMeansEmptySlot` | package-builder/closure.c:106-109 | the size is below capacity if and only if a slot is empty |
| `ClosureTable.StoreRepresents` | package-builder/closure.c:106-125 | a successful store adds exactly its key to the represented set and fills at most one slot |
| `ClosureTable.SizeIsCardinality` | package-builder/closure.c:117-123 | no key is stored twice: the size is the number of keys represented, for keys that fit |
| `ClosureTable.LookupSound` | package-builder/closure.c:127-171 | a stored store object is always found, and a found one agrees with some stored key on 44 characters |
| `ClosureTable.LookupIsMembership` | package-builder/closure.c:127-171 | where 44 characters identify a key, lookup is set membership |
| `ClosureTable.LookupIff` | package-builder/closure.c:155-170 | for every table, a lookup answers yes if and only if some slot agrees on 44 characters and no empty slot lies between where the store object hashes to and there |
| `ClosureTable.LookupOfOnlyIff` | package-builder/closure.c:155-170 | where a single slot agrees, the lookup answers yes if and only if the slots leading to it are filled |
| `ClosureTable.LookupReturnsIff` | package-builder/closure.c:155-170 | a lookup returns if and only if the table has room or some slot agrees on 44 characters |
| `ClosureTable.StoreObject` | package-builder/closure.c:135-151 | the store object is a proper prefix of at least 44 characters, ending at a slash |
| `ClosureTableObject.HashTable.constructor` | package-builder/closure.c:96-104 | the new table represents the empty set |
| `ClosureTableObject.HashTable.Probe` | package-builder/closure.c:112-115 | the loop ends at the slot where the abstract probe lands |
| `ClosureTableObject.HashTable.Store` | package-builder/closure.c:106-125 | refuses exactly a full table, otherwise always ends and leaves the array the value-level store describes, size in step |
| `ClosureTableObject.HashTable.Lookup` | package-builder/closure.c:127-171 | returns the value-level answer wherever the loop ends |
| `ClosureLoad.NormalisedRecovers` | package-builder/closure.c:216-225 | a requisite is recovered from its line whatever slashes and newline follow it |
| `ClosureLoad.LoadedRepresents` | package-builder/closure.c:211-250 | after the load the table represents exactly the set of keys the load got stored |
| `ClosureLoad.LoadedKeysBounds` | package-builder/closure.c:227-250 | those are closure keys only, and all of them if the load leaves room |
| `ClosureLoad.LoadLeavesRoomIff` | package-builder/closure.c:211-250 | for keys that fit their buffers, the load leaves room if and only if the closure has fewer than 4096 distinct keys |
| `ClosureLoad.LinesFit` | package-builder/closure.c:214-215 | lines from a PATH_MAX read buffer give keys that fit |
| `ClosureLoad.LoadedDecidesClosure` | package-builder/closure.c:191-278 | with fewer than 4096 keys every lookup returns, yes exactly for paths beneath a store object of the closure, where 44 characters identify it |
| `ClosureLoad.RequisiteFound` | package-builder/closure.c:218-231 | every path beneath a requisite is found, whatever else is stored |
| `ClosureLoad.OutsideLookupReturnsIff` | package-builder/closure.c:155-170 | a lookup beneath a store object that agrees with no closure key returns if and only if the closure has fewer than 4096 keys |
| `ClosureLoad.FullClosureHangs` | package-builder/closure.c:155-170 | for every 44-character prefix, 4096 requisites of at most 46 characters that make the lookup of any path beneath another store object loop forever |
| `ClosureBuildOut.BuildOutFoundIff` | package-builder/closure.c:244-250 | beneath a store object with which only the build output agrees, a lookup answers yes if and only if no empty slot separates where the object hashes to from the slot of the build output |
| `ClosureBuildOut.PlainBuildOutFound` | package-builder/closure.c:244-250 | a build output without a slash behind its store object is found for every path beneath it, whatever else is stored |
| `ClosureBuildOut.SlashedBuildOutMissed` | package-builder/closure.c:244-250 | with no requisites, a build output written with a trailing slash is never found, for any store object and any path beneath it |
| `ClosureLoad.StripTrailingSlashes` | package-builder/closure.c:223-225 | the loop strips exactly the trailing slashes |
| `ClosureLoad.ClosureTableInit` | package-builder/closure.c:211-256 | the load loop and the two extra stores leave the table the value-level load describes |
| `ClosureLoad.InClosure` | package-builder/closure.c:259-278 | refuses everything without a table, lets an unresolvable path through, and otherwise answers the lookup |
| `EventDelivery.EventConservation` | cli/flox-events/src/client.rs:449-483 | after every run over every network the file holds fewer than 1000 events and is the tail of the history, and every earlier event was received or evicted with 999 newer ones recorded |
| `EventDelivery.DeliveryInOrder` | cli/flox-events/src/client.rs:471-480 | every batch is a stretch of the history, both ends of which only move forward; whatever precedes it was received in an earlier send or evicted; and no event of an acknowledged batch is ever sent again |
| `EventDelivery.FlushIsSends` | cli/flox-events/src/client.rs:465-483 | a whole flush equals its single sends in sequence, so runs cover a flush interrupted between sends |
| `EventsBuffer.FlushBatches` | cli/flox-events/src/client.rs:471-476 | batches are non-empty and hold at most 100 events, and only the last send may fail |
| `EventsBuffer.FlushPartitions` | cli/flox-events/src/client.rs:465-483 | acknowledged batches followed by what remains are the starting buffer |
| `EventsBuffer.FlushCounts` | cli/flox-events/src/client.rs:465-483 | success takes n/100 sends rounded up, and failure on send k+1 leaves exactly the events from index 100*k |
| `EventsBuffer.Flush` | cli/flox-events/src/client.rs:465-483 | unforced, sends exactly if the oldest event is older than the limit; the loop then leaves the file and the log of sends as the value-level flush describes, and succeeds exactly when it empties the file |
| `EventsBuffer.RecordEvent` | cli/flox-events/src/client.rs:449-463 | the file keeps the newest 999 events |
| `EventsBuffer.Buffer.Push` | cli/flox-events/src/buffer.rs:136-149 | file and buffer agree and hold the newest 999 events |
| `EventsBuffer.Buffer.PopFrontToMaxSize` | cli/flox-events/src/buffer.rs:176-180 | the loop keeps the newest 999 events |
| `EventsBuffer.Buffer.OverwriteFile` | cli/flox-events/src/buffer.rs:112-133 | the rewritten file mirrors the buffer |
| `EventsBuffer.BatchSize` | cli/flox-events/src/buffer.rs:103-105 | a batch fits the buffer and the limit, and is empty only if the buffer is |
| `SandboxPaths.WithinIsComponentPrefix` | package-builder/sandbox.c:374-383 | on canonical paths the string test is the component-prefix test, except that the root admits only itself |
| `SandboxPaths.HomeDotfileIsHiddenEntry` | package-builder/sandbox.c:462-470 | the dotfile test holds exactly when the first component beneath the home starts with a dot |
| `SandboxPaths.CheckAllowedBasenames` | package-builder/sandbox.c:343-386 | the scan accepts exactly the paths component-wise inside some existing allowed directory |
| `SandboxWarnings.WarnedPaths.ShouldWarnForPath` | package-builder/sandbox.c:524-543 | answers whether the path is unrecorded, and records it while there is room; recorded paths stay distinct and at most 1024 |
| `SandboxWarnings.OffIsSilent` | package-builder/sandbox.c:633-634 | with the sandbox off nothing is refused, printed or remembered |
| `SandboxWarnings.Process.SandboxCheckPath` | package-builder/sandbox.c:631-724 | the cascade of tests yields the value-level verdict, messages in order, and memory: warned paths, report guard, hint counter |
| `SandboxWarnings.WarningNeverLost` | package-builder/sandbox.c:672-719 | in every run each access permitted as an exception has had a warning with its real path printed by then |
| `SandboxWarnings.WarningRarelyRepeated` | package-builder/sandbox.c:533-540 | a second warning for a path means the first could not be recorded, because 1024 distinct paths were or the copy failed |
| `SandboxWarnings.ExecutableReportedOnce` | package-builder/sandbox.c:569-618 | in every run the executable is reported at, and only at, the first access outside the closure at which it can be resolved, if it is foreign, ahead of that access's path message |
| `SandboxWarnings.HintIff` | package-builder/sandbox.c:474-487 | in every run the hint follows a dotfile warning if and only if the number of dotfile warnings before it is a multiple of 2^32 |
| `SandboxWarnings.EnforceCutsWarnShort` | package-builder/sandbox.c:712-723 | the strict levels give warn mode's verdicts and messages up to its first outside content read, which they make fatal |
| `SandboxPolicy.AllowedIff` | package-builder/sandbox.c:631-656 | at every level a call passes in silence if and only if the sandbox is off, the program is permitted, the path does not resolve, a pattern allows it, or its components lie in an allowed directory or beneath a store object of the closure |
| `SandboxPolicy.FatalIff` | package-builder/sandbox.c:712-723 | at every level a call is fatal, with an error naming its path printed last, if and only if the level is strict and it reads contents of a path whose components lie in no allowed directory and lead through no hidden entry of the home, beneath no store object of the closure, which has fewer than 4096 keys that fit and whose first 44 characters tell the object apart, as Nix store hashes do |
| `SandboxPolicy.ExceptionIff` | package-builder/sandbox.c:668-719 | any other call is let through as a symlink read, directory probe, directory listing, dotfile or, in warn mode, content read, in this order, and a warning with that reason is printed exactly if the path is not remembered |
| `SandboxPolicy.SurvivesIff` | package-builder/sandbox.c:720-723 | a process survives if and only if the level is not strict or none of its calls is such a read |
| `SandboxPolicy.StoreObjectIsComponentPrefix` | package-builder/closure.c:135-151 | a path has a given store object if and only if the object's components are a proper prefix of the path's |
| `OneShotReport.OneReport` | package-builder/sandbox.c:569-618 | in every interleaving of fewer than 2^32 threads, with stale loads and a wrapping counter, at most one verdict is delivered, and exactly one thread has won once the guard is raised |
| `OneShotReport.OneReportIff` | package-builder/sandbox.c:578-603 | over all runs the verdict is delivered at most once if and only if there are fewer than 2^32 threads; beyond, the guard wraps to zero and a second report gets through |
| `OneShotReport.FailuresKeepGuard` | package-builder/sandbox.c:582-597 | while no resolution succeeds the guard stays down and any thread may still enter |
| `HookActions.PathInjective` | cli/flox-core/src/hook_actions.rs:95-99 | different shells have different files |
| `HookActions.MailboxHoldsLatestUntaken` | cli/flox-core/src/hook_actions.rs:107-201 | after every history a shell's file holds exactly its latest untaken write |
| `HookActions.TakeReturnsLatestUntaken` | cli/flox-core/src/hook_actions.rs:170-201 | a take returns the latest untaken write for its shell, or nothing |
| `HookActions.ReadOnce` | cli/flox-core/src/hook_actions.rs:183-188 | no write, parseable or not, is consumed by two takes |
| `HookActions.LatestUntaken` | cli/flox-core/src/hook_actions.rs:170-188 | the reference: the last write for a pid with no take behind it |
| `HookActions.RuntimeDir.WriteHookActions` | cli/flox-core/src/hook_actions.rs:107-130 | replaces this shell's file and no other |
| `HookActions.RuntimeDir.TakeHookActions` | cli/flox-core/src/hook_actions.rs:170-201 | removes this shell's file and no other, and returns its actions if it parsed |
| `StartDiff.FromParsedFiles` | cli/flox-activations/src/start_diff.rs:58-82 | in any visiting order the loops collect exactly the vanished variables, once each, and the new or changed ones, exported functions excepted |
| `StartDiff.DiffIsPatch` | cli/flox-activations/src/start_diff.rs:58-82 | patching the start gives the end outside exported functions, additions and deletions are disjoint, and patching any environment twice equals patching it once |
| `StartDiff.OnlyFunctionsSpared` | cli/flox-activations/src/start_diff.rs:64-80 | variables named `BASH_FUNC_…` are never touched, and every other vanished, new or changed variable is |
| `StartDiff.DiffIsMinimal` | cli/flox-activations/src/start_diff.rs:58-82 | every patch with the same effect contains every addition and deletion |
| `QuoteRunArgs.QuotingRoundTripIff` | cli/flox-activations/src/attach.rs:550-561 | for every command line the shell splits the quoted text back into it if and only if every argument survives: non-empty; quoted ones free of dollar signs and of backslashes that escape something; the others free of operators, expansions, complete bracket expressions, backslashes but a final one, a leading hash or tilde, and, in the place of the command name, of assignments and reserved words |
| `QuoteRunArgs.QuotedIff` | cli/flox-activations/src/attach.rs:554-558 | an argument is changed if and only if it holds a space, a double quote or a backquote, and is then double-quoted with those two quotes escaped |
| `QuoteRunArgs.EverydayRoundTrip` | cli/flox-activations/src/attach.rs:550-561 | behind a command that survives, arguments such as `--name=value`, `a#b` or `100%` are split back unchanged |
| `QuoteRunArgs.BackslashIsLost` | cli/flox-activations/src/attach.rs:554-558 | a concrete argument whose backslash is lost |

## Left out

- Activation mode, environment info, `process-compose` bookkeeping and state-file versions: they do not influence who starts or attaches; a version mismatch is a missing file.
- I/O errors and crashes inside one locked section or inside `overwrite_file`: a step happens entirely or not at all.
- The waiting loop of `activate` and the executive's event loop: they only decide when the modelled steps are taken.
- Store paths with the same basename in different directories, and basenames that are not valid Unicode: only the first is characterised, in `StartDirectory.StartDirectoriesCollideIff`.
- Parsing: JSON text, unreadable telemetry lines and the splitting of over-long requisite lines by `fgets`; the model starts from parsed values and from lines as `fgets` returns them.
- A missing `FLOX_ENV` or `requisites.txt`: the load then yields no table, which `InClosure` covers.
- `realpath`, `fnmatch`, the building of the allow-lists and the interceptors of the sandbox: their answers are inputs of the modelled functions.
- QuoteRunArgs.QuotingRoundTripIff: what an expansion yields is not modelled, so an unquoted `$`, backquote, `*`, `?`, bracket expression or leading tilde, and a `$` or backquote inside double quotes, count as beyond splitting even where the shell happens to leave them alone (section 2.6 of the POSIX.1-2017 Shell Command Language); aliases are not modelled.
- OneShotReport.OneReport: memory ordering is modelled only as far as one atomic variable goes, by letting loads be stale.
- Manifests, catalogs, API clients, the event hub, `ld-floxlib` and the Nix plugin: mostly plumbing and delegation.
