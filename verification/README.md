# A model of javi-forge's preparation, hook and gate machinery

javi-forge prepares files through a sandboxed one-shot worker, keeps hook
registrations in other tools' configuration files, installs git hooks, publishes
plugins and runs gates. Each of these has a hard promise: one execution per
approval, nothing of the user's lost, no false green. This project models the code
behind those promises and proves them, for every input, every fault and every run
of the model.

`dafny verify dfyconfig.toml` checks all of it.

## The parts

**The one-shot preparation protocol.** `Approval` (the authority and its ledger),
`OneShot` (a transition system of any number of executors, their workers and
revokers over one ledger and one destination, with faults, kills and crashes at
every step), `OneShotSafety` (an invariant, and what it gives over every run),
`OneShotProgress` (a successful run exists, and each step of the worker exactly),
`ApprovalSteps` and `CleanupSteps` (the authority's methods and the executor's cleanup
are the steps of the transition system, and every attempt that is stopped ends in it). `Messages`, `Supervisor` and
`Transcripts` are the byte-level line protocol on the worker's output, and
`Destination` and `Cleanup` are the check before an attempt is called prepared and
the removal of a denied one.

**Two JSON walkers, one grammar.** `Utf8` and `JsonGrammar` state the grammar of
RFC 8259 and the characters of RFC 3629 as concrete syntax trees and their
spelling. `JsonScan` is what the worker's C recogniser computes, `JsonRecognition`
and `WorkerDialect` prove it sound and complete against the grammar, `WorkerJson`
is the cursor that moves in place, `DuplicateKeys` is the second walk over text that
a JSON parser accepted, and `JsonDepth` compares the two depth rules.

**Plugin publication.** `PluginReplacement` runs the publication on a disk whose
reads fail, whose moves lie, and where a stranger may appear.

**Hook registrations.** `Json`, `ClaudeSettings` and `ClaudeManager` (classify,
plan, apply), `CodexConfig` (line edits of `config.toml`), `CodexHooks` and
`CursorHooks` (merging handlers, with the patterns that recognise the managed
commands), over `CommandWords` (the words of a command line).

**Git hooks and gates.** `HookContent` (the marker block), `HookInstaller`
(backups and writes over failing system calls), `HooksPathGuard` (the guard over
four git configuration scopes), `GateRun` (one child with two timers) and
`GatePhase` (the gate loop).

**Reading files.** `SafeRead` (short reads and the trim to whole characters).

`Wrappers`, `Lines` and `Decimal` are shared. Code that updates fields or runs
loops is a class or a method with loops here, proved against a specification
function; the theorems are about the specification.

## What the environment may do

Reads, writes, moves, signals and timers fail or fire whenever they like. Digests,
text encodings and signature checks are parameters: a digest is a function, taken
to be injective where a theorem needs it and says so; the validity of a signature
is a Boolean input. Clocks are integers that do not go back.

## Where the code and its promises differ

The code is kept as it is. For each difference there is the exact condition, and a
lemma with an input, or a family of inputs, on the wrong side of it.

- The worker takes a backslash followed by the byte 0 for an escape, because the
  test of the escape letter also finds the end of the list of letters
  (`WorkerDialect.DisagreesOnNulEscape`, `WorkerDialect.RecognisesRfc8259`).
- The two walkers bound depth differently: the worker counts values, the other
  walk counts containers (`JsonDepth.DepthRulesPart`, `JsonDepth.TowersDisagree`).
- Codex trust is looked for without quotes and deleted with double quotes. A rewritten
  hook can therefore still be reported trusted (`CodexConfig.TrustAfterRewrite`, with
  `CodexConfig.SuffixPathStaysTrusted` and `CodexConfig.LiteralKeyStaysTrusted`).
- The Codex command pattern takes the asset path for one word. On paths of more words,
  but for a few that happen to hold what it looks for, the hook just written counts as
  foreign and every install appends another group (`CodexHooks.InstallConvergesExactly`,
  `CodexHooks.SpacedPathDiverges`). A merge also drops a foreign group whose handler list
  is empty (`CodexHooks.GroupSurvives`).
- The Cursor command pattern asks for `node` in the executable's path. Under another
  runtime every install appends another handler (`CursorHooks.InstallConvergesExactly`,
  `CursorHooks.BunDiverges`).
- The `core.hooksPath` guard takes a blank value for none, and reads the local and
  worktree scopes without the files they include, so it can proceed and leave a setting
  in force (`HooksPathGuard.UnsetExactly`, `HooksPathGuard.ShadowedExactly`,
  `HooksPathGuard.BlankValuePasses`, `HooksPathGuard.IncludedValuePasses`).
- A gate whose command cannot be started fails with exit code 0 in its outcome, and no
  other failing gate does (`GatePhase.RunCommands`, `GatePhase.UnstartedReportsZero`).
- Whether a file counts as binary depends on how much its first read returns
  (`SafeRead.SafeReadFile`, `SafeRead.FirstReadDecides`).

## Model

| member | source | states |
|---|---|---|
| `WorkerDialect.RecognisesRfc8259` | assets/preparation-worker.c:65-119 | For every byte string: it is one RFC 8259 object (sections 2 to 7) in UTF-8 per section 4 of RFC 3629, at most 64 levels deep, with blanks around it, if and only if the recogniser accepts it and it holds no byte 0. |
| `WorkerDialect.RecognisesWorkerDialect` | assets/preparation-worker.c:65-119 | For every byte string: accepted if and only if it is such an object in the same grammar with backslash-NUL added as an escape. |
| `WorkerDialect.DisagreesOnNulEscape` | assets/preparation-worker.c:79 | An eight-byte input the recogniser accepts and RFC 8259 does not, because the `strchr` test of an escape letter also finds the terminating 0. |
| `WorkerJson.IsObject` | assets/preparation-worker.c:119 | The C entry point decides exactly membership in the worker dialect, and never reads outside the buffer. |
| `WorkerJson.Cursor.Value` | assets/preparation-worker.c:93-118 | The recursive descent moves the cursor to the end of the value that the scan finds there, or fails exactly when there is none within the depth limit. |
| `WorkerJson.Cursor.Items` | assets/preparation-worker.c:100-108 | The member loop ends behind the closer that the scan finds, or fails exactly when there is none. |
| `WorkerJson.Cursor.String` | assets/preparation-worker.c:68-92 | The string loop ends behind the closing quote, through escapes and multi-byte characters. |
| `WorkerJson.Cursor.Multibyte` | assets/preparation-worker.c:80-89 | The shift-and-mask decoder with its overlong, surrogate and range tests consumes one character or fails. |
| `WorkerJson.Cursor.Number` | assets/preparation-worker.c:111-116 | Whole part, fraction and exponent are consumed greedily, or the number is refused. |
| `JsonRecognition.MultibyteIsChar` | assets/preparation-worker.c:81-88 | The decoder accepts exactly the byte sequences of the UTF8-char production of RFC 3629. |
| `JsonRecognition.ValueSound` | assets/preparation-worker.c:93-118 | Where a scan succeeds there is a concrete syntax tree that spells what was consumed, within the depth left. |
| `JsonRecognition.ValueComplete` | assets/preparation-worker.c:93-118 | A well-formed tree within the depth left, wherever it is spelled, is consumed to its end: no second reading of the input exists. |
| `JsonRecognition.ItemsSound` | assets/preparation-worker.c:100-108 | The same for the members of a container. |
| `JsonRecognition.ItemsComplete` | assets/preparation-worker.c:100-108 | The same for the members of a container. |
| `DuplicateKeys.UniqueKeys` | src/lib/preparation-status-ok.ts:28-81 | On every text that spells a JSON document the walk ends at the end of the text, and accepts if and only if containers nest at most 64 deep and no object has two members whose decoded names are equal. |
| `DuplicateKeys.Walker.Visit` | src/lib/preparation-status-ok.ts:43-77 | On a spelled value the walker advances to its end, or refuses exactly when something below it is too deep or repeats a name. |
| `DuplicateKeys.Walker.Members` | src/lib/preparation-status-ok.ts:61-74 | The member loop with its set of names decides exactly what remains after the names already seen. |
| `DuplicateKeys.RemainingMeans` | src/lib/preparation-status-ok.ts:62-66 | Deciding member by member against a growing set is the same as no two names of the object being equal. |
| `DuplicateKeys.DecodeBodyText` | src/lib/preparation-status-ok.ts:39 | Decoding the raw text of a string body gives the code units its pieces denote, so that differently escaped spellings compare equal. |
| `DuplicateKeys.RawEndBody` | src/lib/preparation-status-ok.ts:33-42 | Skipping one unit after every backslash still finds the true end of a string. |
| `JsonDepth.DepthRulesPart` | src/lib/preparation-status-ok.ts:50-52 | The two depth rules disagree exactly on trees of 65 nested containers whose deepest value is at level 64; nothing too deep for the worker is shallow enough for the walk. |
| `JsonDepth.TowersDisagree` | assets/preparation-worker.c:93-107 | Such documents exist: 65 containers of which the innermost is empty are RFC 8259 text that the worker takes and the walk refuses. |
| `Supervisor.Handlers.OnStdout` | src/lib/preparation-executor.ts:358-410 | The data handler with its line buffer and byte count leaves the state that the fold over complete lines gives. |
| `Supervisor.Handlers.OnLine` | src/lib/preparation-executor.ts:372-405 | One line moves the flags and records as the specification step does. |
| `Supervisor.ChunksDoNotMatter` | src/lib/preparation-executor.ts:354-410 | For every way of cutting the bytes into events: unless aborted, the state is that of one single chunk, and it is aborted exactly when that one is, a kill came, or the two streams together exceed the budget. |
| `Supervisor.RunRemembers` | src/lib/preparation-executor.ts:325-410 | For every events and whatever comes after them, aborted or not: the directory once recorded stays recorded, and so does every file with its identity. |
| `Supervisor.HighBitIgnored` | src/lib/preparation-executor.ts:365 | Decoding as ASCII drops the highest bit of every byte, so a transcript may be spelled with bytes from 128 on. |
| `Transcripts.AcceptedExactly` | src/lib/preparation-executor.ts:336-421 | A run is accepted if and only if the approval was consumed, nothing killed the child, it exited with 0 before the overall time ran out, stdout and stderr hold at most 2048 bytes, and stdout is READY, VALID, one DIR, six FILE lines with six indices, DONE, and nothing else. |
| `Transcripts.AcceptedRecords` | src/lib/preparation-executor.ts:389-405 | An accepted run recorded the directory of its DIR line and one identity for each of the six files. |
| `Transcripts.RecordsAreSaid` | src/lib/preparation-executor.ts:366-409 | For every run, aborted or not: the directory and records that cleanup will go by are those of some first lines of the output, which fit a transcript so far; without an abort, of all of them. |
| `Transcripts.HonestIsAccepted` | assets/preparation-worker.c:152-179 | A worker that prints any 64-bit device and inode numbers always fits the budget, however its output is cut, and the executor ends with exactly the identities it printed. |
| `Messages.ReadPrinted` | src/lib/preparation-executor.ts:390-402 | What the worker prints for a directory or file is read back as the same message. |
| `Messages.ReadExactly` | src/lib/preparation-executor.ts:372-405 | For every line: it is READY, VALID or DONE only as that word, and DIR or FILE exactly when its text is that word, for a file one of the digits 0 to 5, and two numerals with single blanks. |
| `Approval.CreatedWindow` | src/lib/preparation-authorization.ts:46-87 | A created payload is valid at the moment of creation and then exactly from its issue to just before its expiry, at most ten minutes. |
| `Approval.CreateExactly` | src/lib/preparation-authorization.ts:46-87 | Creation succeeds if and only if the authority would find the payload admissible and in its window at that moment. |
| `Approval.AdmissibleExactly` | src/lib/preparation-authorization.ts:109-155 | In an admissible envelope only the nonce, itself 64 hexadecimal digits, and the two times are free. |
| `Approval.Authority.Verify` | src/lib/preparation-authorization.ts:109-173 | Verification succeeds exactly for an admissible envelope (shape, fixed fields, binding, nonce, signature) inside its window whose nonce has no terminal file, and changes nothing but the set of verified approvals. |
| `Approval.Authority.Terminal` | src/lib/preparation-authorization.ts:174-204 | Consume and revoke succeed only for a verified approval inside its window whose terminal file they created; a failure after the creation burns the nonce all the same. |
| `Approval.Contest` | src/lib/preparation-authorization.ts:174-204 | For any calls of consume and revoke by any authorities on one ledger: of those with one nonce at most one returns normally, none with a nonce burnt before, and a verdict in the ledger is final. |
| `ApprovalSteps.Verifies` | src/lib/preparation-authorization.ts:109-173 | The method is the verification step of the protocol, on the same ledger. |
| `ApprovalSteps.Claims` | src/lib/preparation-authorization.ts:174-204 | Uninterrupted, the method is the claim, creation and finish steps of the protocol, with the same outcome and the same burnt nonces. |
| `OneShotSafety.ActKeeps` | src/lib/preparation-executor.ts:270-518 | Every step of every process (clock, verify, claim, create, finish, spawn, line, kill, close, unlink, rmdir, crash, worker step, each with faults) keeps the protocol invariant and touches only its own claim and its own directory. |
| `OneShotSafety.RunInv` | src/lib/preparation-executor.ts:270-518 | The invariant holds after every interleaving of any number of executors, workers and revokers. |
| `OneShotSafety.AtMostOneTerminal` | src/lib/preparation-authorization.ts:174-204 | Over every run: of all processes with one nonce at most one has its consume or revoke return. |
| `OneShotSafety.ExecutesOnceInWindow` | assets/preparation-worker.c:152-164 | Over every run: a worker past its go byte belongs to the executor whose own consume returned after a window check inside issue and expiry, and no other process with that nonce executes or succeeds. |
| `OneShotSafety.WindowIsCheckedNow` | src/lib/preparation-authorization.ts:177-178 | The time compared with the window is the clock at the step that compares it. |
| `OneShotSafety.BurntDenies` | src/lib/preparation-authorization.ts:153-187 | With its nonce burnt, no step verifies an approval or creates the terminal file. |
| `OneShotSafety.RunGrows` | src/lib/preparation-authorization.ts:180-187 | Over every run: a burnt nonce stays burnt, by the same process. |
| `OneShotSafety.RemovesOnlyReported` | src/lib/preparation-executor.ts:486-502 | An entry of the destination disappears only in the cleanup of the executor whose worker made and reported a file of that very identity. |
| `OneShotSafety.CompleteMeansAbsent` | src/lib/preparation-executor.ts:470-516 | At the step at which a denied attempt reports a complete cleanup, the directory does not exist; that such a report comes when it can is `CleanupSteps.CleanupIsComplete`. |
| `OneShotSafety.DeniedCompleteLeavesNothing` | src/lib/preparation-executor.ts:470-516 | Over every run: whatever is at the destination after such a report was made by the worker of another executor, which still owns it. |
| `OneShotSafety.PreparedHolds` | src/lib/preparation-executor.ts:426-466 | Over every run: a prepared attempt was consumed, and the destination is the directory its worker reported, holding the six bound outputs byte for byte and nothing else. |
| `OneShotSafety.ConsumesAfterReady` | src/lib/preparation-executor.ts:372-380 | Over every run: an executor that is about to consume, or has, has a worker that said READY. |
| `OneShotSafety.WorksOnItsOwn` | assets/preparation-worker.c:164-177 | No step of a worker changes the destination unless it is vacant or a directory that this worker made. |
| `OneShotSafety.FaultDenies` | src/lib/preparation-executor.ts:270-518 | A step in which a call fails takes no process further than to a refusal, or to a report that is neither prepared nor complete. |
| `OneShotProgress.CanPrepare` | src/lib/preparation-executor.ts:336-466 | From every state with a valid unburnt approval and a vacant destination, whatever the other processes are, some run ends prepared: the safety theorems are not empty. |
| `OneShotProgress.CanRevoke` | src/lib/preparation-authorization.ts:174-204 | From every state a revoker with a valid unburnt approval can burn the nonce and have its call return. |
| `OneShotProgress.OccupiedStops` | assets/preparation-worker.c:133 | A worker that finds the destination occupied exits with 10 before it says anything. |
| `OneShotProgress.FaultExits` | assets/preparation-worker.c:130-180 | A failed call or check of the worker ends it with 10 before the go byte is read, with 20 while it validates, with 30 from the making of the directory on, and changes nothing else. |
| `OneShotProgress.ExitsExactly` | assets/preparation-worker.c:130-180 | For every other step of a running worker: when it exits and with which code, 0 only after the sixth file. |
| `OneShotProgress.WritesByParts` | assets/preparation-worker.c:120-122 | However short the single writes are, they put down the output from its beginning, and the worker goes on only once all of it is there. |
| `Destination.CheckedMeans` | src/lib/preparation-executor.ts:433-461 | Six listed entries among which all six names are found with the right digests are exactly the six bound outputs. |
| `Destination.CheckedExactly` | src/lib/preparation-executor.ts:426-465 | The check passes if and only if the directory is, but for who made it, the one of mode 0700 under the recorded identity with six plain files, each of one link, mode 0600, its recorded identity and its bound output of at most the permitted size. |
| `Destination.PostCheck` | src/lib/preparation-executor.ts:426-465 | The loop of checks passes exactly when every file passes, and then the directory holds the bound outputs. |
| `Cleanup.Clean` | src/lib/preparation-executor.ts:467-511 | Cleanup is complete exactly, faults aside, when nothing was reported and nothing is there, or exactly the reported entries are; it removes no entry but reported ones of the reported directory, and a complete cleanup leaves no directory. |
| `Cleanup.Unlinks` | src/lib/preparation-executor.ts:495-499 | The unlink loop takes out entries whose identity is the recorded one, and stops at the first that is not. |
| `CleanupSteps.CleanupIsComplete` | src/lib/preparation-executor.ts:467-516 | A denied attempt whose worker is dead and whose lines are handled or ignored: closing, unlinking the recorded files in any order and removing the directory, without faults, end in a complete report with nothing left if and only if nothing was reported and nothing is there, or exactly the reported entries are under the reported directory. |
| `CleanupSteps.Cleans` | src/lib/preparation-executor.ts:467-516 | The executor's cleanup method and these steps of the protocol report the same on the same directory. |
| `CleanupSteps.StoppedEnds` | src/lib/preparation-executor.ts:325-516 | From every state, whatever the worker is doing: a timer, an expired window, a burnt nonce or a failed consume leads through the kill to exactly that cleanup of what had been recorded. |
| `CleanupSteps.CrashKills` | src/lib/preparation-executor.ts:161 | A worker does not outlive its executor. |
| `CleanupSteps.CanDenyCleanly` | src/lib/preparation-executor.ts:325-516 | However many files are written when a timer fires, the attempt can be denied and leave nothing. |
| `PluginReplacement.Publish` | src/lib/plugin-replacement.ts:77-205 | Under any schedule of failing reads, moves that apply or not or partly and report either way, and strangers at the destination: with a valid name and none of these the stage is published and nothing else is left, and with an invalid name nothing is touched; success was read back and the destination is the checked stage, with a warning exactly if the promotion reported a failure; a backup move that reported a failure is never built on; failure removed nothing and the prior install is at the destination or in the backup; with atomic moves and clean reads it is back at the destination unless the restoring move was refused. |
| `PluginReplacement.Disk.IoMove` | src/lib/plugin-replacement.ts:106 | A move is only asked for from a source seen in place to a target seen vacant, and never of the prior install to anywhere but the backup or the destination; that it keeps the prior install is an invariant of every step. |
| `PluginReplacement.Attempt` | src/lib/plugin-replacement.ts:105-122 | The two reads after a move report applied or not applied only when the disk is so, whatever the move itself reported. |
| `PluginReplacement.Promote` | src/lib/plugin-replacement.ts:162-201 | From promotion on: the backup is discarded only after the stage was seen at the destination. |
| `PluginReplacement.PutBack` | src/lib/plugin-replacement.ts:162-175 | The prior install goes back only after a look that found the stage still in place, and only to a vacant destination. |
| `PluginReplacement.Managed` | src/lib/plugin-replacement.ts:48-71 | A path is empty, holds an object that passes the ownership check, or makes the run throw. |
| `PluginReplacement.NameOkExactly` | src/lib/plugin-replacement.ts:124-132 | A name is taken exactly when it is not blank, holds no separator and is neither dot name. |
| `PluginReplacement.Discard` | src/lib/plugin-replacement.ts:177-192 | Removal is asked for once, after new looks at the workspace, the backup and the stage have each shown what belongs there, and leaves the destination alone. |
| `PluginReplacement.ThreeWays` | src/lib/plugin-replacement.ts:106-109 | Relocating, doing nothing and leaving a partial copy all conserve the moved object and every other place. |
| `Json.DeepEqualIsEquality` | src/lib/claude-hook-settings.ts:215-231 | The recursive comparison decides equality of JSON values. |
| `ClaudeSettings.FindManagedMarkers` | src/lib/claude-hook-settings.ts:293-311 | The nested loops list the marked handlers in order. |
| `ClaudeSettings.MarkersAre` | src/lib/claude-hook-settings.ts:293-311 | A position is listed if and only if a marked handler is there. |
| `ClaudeSettings.OneMarker` | src/lib/claude-hook-settings.ts:339-344 | With exactly one marked handler the list is that one position. |
| `ClaudeSettings.CountDeepMatches` | src/lib/claude-hook-settings.ts:234-242 | The counting loop gives the multiplicity of the object in the list. |
| `ClaudeSettings.StatusExactly` | src/lib/claude-hook-settings.ts:155-171 | A status is normalised exactly when it is the prefix and a token of 64 digits; every other text stays as it is. |
| `ClaudeSettings.CanonicalSees` | src/lib/claude-hook-settings.ts:188-212 | Two handlers have one identity exactly when the matcher, type, command, arguments and timeout agree and the statuses normalise alike. |
| `ClaudeSettings.LegacyExactly` | src/lib/claude-hook-settings.ts:250-290 | Without a marker the state is legacy exactly when each cohort object is there once, else foreign exactly when one of them or any handler is there, else absent. |
| `ClaudeSettings.ClassifyExactly` | src/lib/claude-hook-settings.ts:326-390 | By the number of marked handlers: none leaves the legacy question, two or more are an edit, and one decides by its group and identity. |
| `ClaudeSettings.MarkedExactly` | src/lib/claude-hook-settings.ts:358-390 | One marked handler: current, released or edited by the identity in a valid group, edited in any other. |
| `ClaudeSettings.ManagedIdentity` | src/lib/claude-hook-settings.ts:663-682 | What the writer builds sets just the fields an identity reads, and has the same identity for every digest. |
| `ClaudeManager.ExcisionPicks` | src/lib/claude-hook-settings.ts:544-578 | The planned indices are, in ascending order, exactly the positions of the cohort members, and the insertion point is behind every surviving group. |
| `ClaudeManager.SpliceDescending` | src/lib/claude-hook-manager.ts:1103-1109 | Splicing single positions from the highest down removes exactly the planned elements and keeps the others in order. |
| `ClaudeManager.ApplyExcision` | src/lib/claude-hook-manager.ts:1101-1111 | The index-based removal and insertion give the container without the cohort and with the managed group at the end. |
| `ClaudeManager.ApplySettingsPlan` | src/lib/claude-hook-manager.ts:1079-1112 | Applying any plan gives the container the plan means. |
| `ClaudeManager.Converges` | src/lib/claude-hook-manager.ts:1003-1112 | For every read of the settings and both modes: a plan that is not a refusal leaves a container that classifies as current and from which either mode plans nothing more. |
| `ClaudeManager.Preserves` | src/lib/claude-hook-manager.ts:1079-1112 | Every plan leaves all keys outside the two event lists equal; in them it appends one group, or rewrites one handler and its matcher, or takes out exactly the four cohort objects. |
| `ClaudeManager.RefusesExactly` | src/lib/claude-hook-manager.ts:1003-1060 | For every read: unparsed settings are refused exactly when they are neither absent nor the whole legacy file; parsed ones exactly when malformed or foreign, or edited and force is off, or edited with no single marker in a valid group, or with an edited matcher and sibling handlers. |
| `ClaudeManager.WritesWholeFile` | src/lib/claude-hook-manager.ts:235-262 | The whole file is written exactly when there was none or it was the whole legacy content: never over anything that could not be read or parsed. |
| `CodexConfig.ParseFeaturesHooks` | src/lib/codex-hook-manager.ts:125-140 | The loop with its section flag gives the value of the first hooks line governed by a `[features]` header. |
| `CodexConfig.HooksFlagExactly` | src/lib/codex-hook-manager.ts:122 | A line reads as true or as false exactly when it is `hooks`, the sign and that word, with any white space in front and around the sign, and no word character behind. |
| `CodexConfig.HeaderExactly` | src/lib/codex-hook-manager.ts:121 | A line opens a table exactly when it is a bracketed text without brackets, trimmed to the name, with white space around it and a comment behind at most. |
| `CodexConfig.FlagExactly` | src/lib/codex-hook-manager.ts:125-140 | The flag is that of the first line that decides it, and there is none without such a line. |
| `CodexConfig.SectionExactly` | src/lib/codex-hook-manager.ts:127-132 | A line is in the section of the last header before it. |
| `CodexConfig.AnyEnding` | src/lib/codex-hook-manager.ts:127 | Whether lines end in a newline or in a carriage return and a newline, each in its own way, they are the same lines. |
| `CodexConfig.TrustTests` | src/lib/codex-hook-manager.ts:154-192 | The two tests of a header side by side: both ask for the namespace; one for the path and the first hook behind it, the other for a double quote before the path. |
| `CodexConfig.HasCodexTrustEntry` | src/lib/codex-hook-manager.ts:154-163 | Trust is reported if and only if some header in the trust namespace contains the path with the first hook suffix. |
| `CodexConfig.RemoveCodexTrustEntries` | src/lib/codex-hook-manager.ts:175-198 | The loop with its dropping flag keeps exactly the lines whose governing header does not name the quoted path. |
| `CodexConfig.RemovalIsExact` | src/lib/codex-hook-manager.ts:175-198 | For every text without stray carriage returns: a header survives if and only if it does not name the quoted path, deleting again changes nothing, and the feature flag is read as before. |
| `CodexConfig.MergeFeaturesHooksTrue` | src/lib/codex-hook-manager.ts:205-238 | The method leaves the text that the four-way specification gives. |
| `CodexConfig.MergeTurnsOn` | src/lib/codex-hook-manager.ts:205-238 | The flag is then read as true and merging again changes nothing; a text that had it on is untouched; else the first deciding line is rewritten, or without one a line is inserted after the first `[features]` header, or without that either a table is appended; and the trust answer for every file is unchanged. |
| `CodexConfig.TrustAfterRewrite` | src/lib/codex-hook-manager.ts:708-722 | After a rewrite the doctor still finds trust if and only if some trust header contains the path and suffix without naming the path in double quotes. |
| `CodexConfig.SuffixPathStaysTrusted` | src/lib/codex-hook-manager.ts:155-160 | The condition can hold: a key for any file whose path ends in ours counts as our trust and survives the removal. |
| `CodexConfig.LiteralKeyStaysTrusted` | src/lib/codex-hook-manager.ts:183-192 | And a key for our own path in single quotes survives as well. |
| `CodexHooks.MergeCodexHooks` | src/lib/codex-hook-manager.ts:327-363 | The filter loop gives the specified container. |
| `CodexHooks.MergeKeepsForeign` | src/lib/codex-hook-manager.ts:327-363 | For every container: the handlers after a merge are the foreign ones in order, then the managed one, and a valid container is equal outside PreToolUse. |
| `CodexHooks.MergeIsCurrent` | src/lib/codex-hook-manager.ts:279-299 | A merged container is current if and only if the command pattern recognises the expected command; otherwise it counts as foreign. |
| `CodexHooks.MergeAgain` | src/lib/codex-hook-manager.ts:327-363 | Merging twice is merging once under exactly that condition; otherwise each merge adds a group. |
| `CodexHooks.GroupSurvives` | src/lib/codex-hook-manager.ts:342-361 | A group goes exactly when all of its handlers are ours, and so also when it is somebody else's and has none; it stays as it was exactly when it is no handler group, or has handlers and none is ours. |
| `CodexHooks.ClassifyExactly` | src/lib/codex-hook-manager.ts:279-299 | For every container, each of the five states by the handlers that stand in its groups. |
| `CodexHooks.GroupKeepsFields` | src/lib/codex-hook-manager.ts:342-357 | What stays of a group differs from it in its handlers alone. |
| `CodexHooks.MergeKeepsFields` | src/lib/codex-hook-manager.ts:331-362 | A merge into any object keeps what it has beside `hooks` and all other events of its `hooks`. |
| `CodexHooks.RecognisedByWords` | src/lib/codex-hook-manager.ts:245-246 | The pattern matches exactly where three words in a row are `node`, one ending in the asset's name, and the argument. |
| `CodexHooks.RecognisedExactly` | src/lib/codex-hook-manager.ts:108-110 | For every directory: the pattern recognises the installed command if and only if the asset's path is one word, or has `node` as its last word but one, or holds the asset's name and the argument among its words. |
| `CodexHooks.InstallConvergesExactly` | src/lib/codex-hook-manager.ts:327-363 | For every container and directory, with the source pattern: on exactly these paths an install is current and stable; on all others the handler just written is foreign and every install adds a copy. |
| `CodexHooks.PlainPathConverges` | src/lib/codex-hook-manager.ts:108-110 | A path without white space is one of those paths. |
| `CodexHooks.SpacedPathDiverges` | src/lib/codex-hook-manager.ts:245-246 | A path with any amount of white space inside it is none of them, if neither `node` nor the argument is one of its words. |
| `CursorHooks.MergeMeans` | src/lib/cursor-hook-manager.ts:176-228 | For any pattern: a merge keeps the foreign handlers in order and appends the managed one; the result is current if and only if the pattern recognises the command and every kept entry is an object; merging twice is merging once if and only if it recognises it, and else adds a copy. |
| `CursorHooks.ClassifyExactly` | src/lib/cursor-hook-manager.ts:202-228 | For every container, each of the five states: current needs the exact handler, recognised, and both marks. |
| `CursorHooks.ReadableExactly` | src/lib/cursor-hook-manager.ts:160-174 | A container is malformed exactly when it, its `hooks`, its event list or any entry of that has the wrong shape. |
| `CursorHooks.MergeKeepsFields` | src/lib/cursor-hook-manager.ts:176-200 | A merge keeps every other key and event, and sets both marks. |
| `CursorHooks.RecognisedExactly` | src/lib/cursor-hook-manager.ts:131-158 | For every executable and policy path without quotes: the pattern recognises the installed command if and only if `node` occurs in the executable as it is written, or the policy path itself holds a whole command. |
| `CursorHooks.RecognisedByName` | src/lib/cursor-hook-manager.ts:131-158 | With no control characters in the executable and no argument in the policy path: if and only if `node` occurs in the executable. |
| `CursorHooks.InstallConvergesExactly` | src/lib/cursor-hook-manager.ts:176-228 | For every container, with the source pattern and command: the install is stable, and current over entries that are objects, under exactly that condition; otherwise it is not current and every install adds a copy. |
| `CursorHooks.BunDiverges` | src/lib/cursor-hook-manager.ts:131-158 | The other side: an executable named `bun`, under every ordinary policy path. |
| `CursorHooks.EscapedKeepsNode` | src/lib/cursor-hook-manager.ts:132 | Writing a path without control characters as a JSON string neither makes nor breaks an occurrence of `node`. |
| `SafeRead.SafeReadFile` | src/lib/safe-read.ts:160-257 | For every content, budget and schedule of short or failing reads: the kept bytes are the whole file, or, exactly when the file is longer than the budget, the trimmed prefix of the budget; a file is refused as binary exactly when a byte 0 is among what the first read gave, up to 8 KiB; each other refusal has its cause. |
| `SafeRead.FirstReadDecides` | src/lib/safe-read.ts:226-238 | A file with a byte 0 is refused as binary if and only if its first read gets past the first one, and that is within 8 KiB. |
| `SafeRead.TrimPartialUtf8` | src/lib/safe-read.ts:100-119 | The scan back over at most three bytes computes the trim. |
| `SafeRead.TrimExactly` | src/lib/safe-read.ts:100-119 | For all bytes, well-formed or not: the trim cuts exactly at a byte, at most three from the end, that announces more than is left and has only continuation bytes behind it, and cuts nothing without one. |
| `SafeRead.TrimKeepsLongest` | src/lib/safe-read.ts:100-119 | On well-formed UTF-8 and at every cut, the trim keeps the longest well-formed prefix within the cut. |
| `SafeRead.RestWellFormed` | src/lib/safe-read.ts:94-119 | What follows a well-formed beginning of a well-formed text is well-formed, so that character boundaries are unique. |
| `HookContent.ClassifyRendered` | src/commands/ci.ts:2409-2498 | For every body, rendered under any older entry and read under any newer: the marker block is taken off without loss, so a `#!` body is current, outdated or edited by its digest and version; a body without `#!` is never taken for marked. |
| `HookContent.MarkedExactly` | src/commands/ci.ts:2418-2437 | For every name, version and claimed digest over a `#!` body: another name is foreign; with the own name the digest of the body decides, the version only between current and outdated, and a historical digest is outdated at every version. |
| `HookContent.UnmarkedExactly` | src/commands/ci.ts:2443-2445 | Content without a marker block is legacy exactly when its digest is historical, and foreign otherwise. |
| `HookContent.NameMarkerExactly` | src/commands/ci.ts:2380-2381 | A line names a hook and a version exactly when it is the mark, the name, ` v` and digits. |
| `HookContent.DigestMarks` | src/commands/ci.ts:2382 | The claimed digest makes a marker block exactly when it is 64 lower-case hexadecimal digits. |
| `HookContent.CurrentIsShipped` | src/commands/ci.ts:2409-2435 | Conversely, a current hook is the shipped body under a marker block of its own name and version, only the claimed digest being free. |
| `HookContent.ReplaceableIsReleased` | src/commands/ci.ts:2429-2446 | Content that the classification lets be replaced without a backup is content the manifest knows. |
| `HookInstaller.BackupHook` | src/commands/ci.ts:2571-2624 | A backup is byte-identical, with the mode, under a candidate name that was free; nothing in place changes; and without faults it succeeds exactly when a free candidate is reached past regular files only. |
| `HookInstaller.FirstFreeExactly` | src/commands/ci.ts:2580-2590 | The candidate taken is the free one before which only regular files stand. |
| `HookInstaller.CandidatesDiffer` | src/commands/ci.ts:2543-2550 | The ten candidates are different names and no slot, in the order of the generator. |
| `HookInstaller.WriteHookFile` | src/commands/ci.ts:2746-2765 | A link, a non-file or a shared inode is never written; a failure before the truncation changes nothing; success leaves exactly the content and mode. |
| `HookInstaller.InstallHook` | src/commands/ci.ts:3113-3158 | One hook: its previous bytes are still in place, or in a new backup, or were released content; and without faults it is refused exactly under the stated condition. |
| `HookInstaller.RefusedExactly` | src/commands/ci.ts:3113-3140 | Without faults, a known hook whose shipped file is there is refused exactly when its slot holds no regular file, or a shared one that is not current, or unreleased content and there is no force or no room for a backup. |
| `HookInstaller.UpgradesUnforced` | src/commands/ci.ts:2428-2437 | A hook written under an older manifest and unchanged since is never refused without force while the manifest knows its body. |
| `HookInstaller.InstallHooks` | src/commands/ci.ts:3113-3158 | The same for every hook of the loop, counted from the start, and no other file of the directory changes. |
| `HookInstaller.InstalledIsCurrent` | src/commands/ci.ts:2481-2498 | After a hook that was not refused, a second run finds it current. |
| `HooksPathGuard.GuardHooksPath` | src/commands/ci.ts:2935-3044 | Every refusal and every exception leaves the configuration as it was; otherwise at most the one legacy value is unset; without faults the verdict is the specified one. |
| `HooksPathGuard.VerdictExactly` | src/commands/ci.ts:2935-3044 | For every configuration, force or not, when no git command fails: which verdict is reached, by the last setting that counts in each scope, the slots, and how often the local file sets the key. |
| `HooksPathGuard.ProceedMeans` | src/commands/ci.ts:2971-3044 | After a verdict to proceed every scope's own answer is blank, nothing but the legacy value has changed, and that was unset without force only when no slot is foreign. |
| `HooksPathGuard.UnsetExactly` | src/commands/ci.ts:2935-3044 | After a verdict to proceed no setting is left in force if and only if the system, global and worktree scopes had none, nothing was included, and the local scope had none of its own or had its legacy value unset. |
| `HooksPathGuard.ShadowedExactly` | src/commands/ci.ts:2935-3044 | After a verdict to proceed a setting that is not blank is in force if and only if the last setting of the local and worktree scopes is in an included file and not blank. |
| `HooksPathGuard.IncludedValuePasses` | src/commands/ci.ts:2847-2855 | The condition can hold: the local read does not follow includes, so any value set there passes. |
| `HooksPathGuard.BlankValuePasses` | src/commands/ci.ts:2855 | A value of white space only passes for unset, stays set, and is what git goes by. |
| `GateRun.NativeRun.OnClose` | src/commands/ci.ts:1633-1660 | The close handler clears the timers and settles: 124 after a timeout, else the exit code, else 128 plus the signal or 1. |
| `GateRun.NativeRun.OnKillTimer` | src/commands/ci.ts:1614-1627 | The timeout is marked before the signal is sent, and the second timer armed. |
| `GateRun.Settles` | src/commands/ci.ts:1561-1668 | For every order of events the promise settles by the first closing event and by whether the timer fired before it, and no timer outlives it. |
| `GateRun.SettlesTo` | src/commands/ci.ts:1633-1666 | The settlement by the first closing event, its code, its signal or neither, and the timer. |
| `GateRun.SignalsSent` | src/commands/ci.ts:1620-1634 | For every order of events: SIGTERM is sent exactly when the timer fires before the end, and SIGKILL after it exactly when the grace runs out too. |
| `GateRun.ExitOnly` | src/commands/ci.ts:1635-1639 | The exit event sends SIGTERM when asked to and otherwise does nothing; it never settles. |
| `GateRun.GreenExactly` | src/commands/ci.ts:1633-1660 | A command is green if and only if its child closed with code 0, not by a signal, before its timer fired; a timed-out command is always 124. |
| `GatePhase.RunGateCommand` | src/commands/ci.ts:1831-1860 | On the host and in a container alike, code 0 means exactly that the command did what it was for; the code and the timed-out mark are those of its child or container. |
| `GatePhase.RunCommands` | src/commands/ci.ts:2061-2107 | Commands run in order up to the first that is not green, whose exit code and timed-out mark the outcome carries. |
| `GatePhase.RunGate` | src/commands/ci.ts:1920-2122 | One gate: refused without a container and then no command runs, skipped without changes, or run; Docker is asked at most once. |
| `GatePhase.RunGates` | src/commands/ci.ts:1875-2127 | One outcome per gate in order; it throws if and only if a blocking gate errored; the base ref is asked for at most once, and then exactly when some reachable gate needs it; Docker at most once, and never when no gate needs it. |
| `GatePhase.CollectGateOutcomes` | src/commands/ci.ts:2287-2309 | The headless result is green if and only if every blocking gate was reachable and had nothing to look at or had all its commands green; a run that throws before the gates reports no failed gate and exits with 1. |
| `GatePhase.NoFalseGreen` | src/commands/ci.ts:2072-2122 | A reported gate failed exactly when it did not pass. |
| `GatePhase.StatusExactly` | src/commands/ci.ts:1920-2122 | Each of the four statuses, and when an exit code is given, by the image, the changed files and the commands. |
| `GatePhase.UnstartedReportsZero` | src/commands/ci.ts:2090-2120 | A command that cannot be started makes its gate fail with exit code 0 in the outcome. |

## Left out

- The seccomp filter, the mount and launcher arguments and the ELF check: kernel and loader facts. Only the order of the worker's effects is modelled.
- The worker's alarms, its payload checks before `mkdirat` and its reading of the payload are faults that may strike at any of its steps; they are not computed.
- `ProtectedDirectory` is one stable directory, and its own checks are faults.
- The child's `error` event stands for a failure to start it; an error event of a running child, such as a refused signal, is not modelled.
- Device and inode numbers are exact naturals; the executor converts them to doubles, so numbers from 2^53 on could coincide there.
- `OneShotSafety.RunInv`: a line of worker output is one message here; bytes, chunks and the budget are in `Supervisor` and `Transcripts`.
- `OneShotSafety.CompleteMeansAbsent`: speaks of the step that makes the report; what another executor does at the destination later is covered by `OneShotSafety.DeniedCompleteLeavesNothing`.
- `Cleanup.Clean`: nobody else changes the directory while it runs; with others at work it is the steps of `OneShot`.
- `Approval.Authority.Verify`: parsing, length, key and alphabet checks of the envelope are one input, and the Ed25519 signature another.
- `Messages.ReadPrinted`: numbers are read back exactly; the executor's conversion to doubles is not modelled.
- `Transcripts.AcceptedExactly`: elapsed time is an input; in `OneShot` running out of it is a fault of the close.
- `DuplicateKeys.UniqueKeys`: texts that `JSON.parse` refuses never reach the walk and are not modelled.
- `PluginReplacement.Publish`: checks of the plugins root and the caller's `prepare` succeed or fail freely, and which objects pass the ownership check is an input; a directory or stranger that appears is a new object.
- JSON objects have no key order and numbers are integers; the canonical identity of a settings entry stands for its digest. Cursor compares serialised handlers, so key order can matter there and not here.
- The legacy cohort is four values, the first three pairwise different.
- `CodexConfig.RemovalIsExact`: for texts in which no line still ends in a carriage return after its line end is taken off; other texts change their lines when they are joined and split again.
- `SafeRead.SafeReadFile`: decoding, the byte order mark and the clamping of long lines are not modelled.
- `CursorHooks.RecognisedExactly`: paths with a double quote in them are left out, because its escape ends the pattern's quoted text; the policy path is taken to end in the policy's file name.
- `HookInstaller.InstallHook`: no other process writes to a hook's own path during the run; backup names may be taken by others at any time. Text encoding and digest are parameters; versions are naturals.
- `HooksPathGuard.GuardHooksPath`: a scope is the list of its settings, each in the scope's own file or an included one; git's own lookup takes the last.
- `GateRun.Settles`: captured output and its truncation are not modelled.
- `GatePhase.CollectGateOutcomes`: a throw of the run outside the gates is an input, and comes before them.
- `GatePhase.RunGates`: environment variables, progress reports and reasons are not modelled; a container exits with a code and a timed-out mark.
- The multi-component transaction, the POSIX access-control adapter, the skill scanner, the workflow parser, the doctors, the command line and its output, templates, provider bundles, stack detection and the security baseline: outside these promises, or list filters and lookups that would add only easy members.
