# Tasq: a verified model of its hard core

Tasq is a local-first commitment tracker with a CLI, a cloud control plane and an
authority service. This project models the parts of it in which several calls, several
processes or several representations have to agree, and proves what those parts promise.
Everything is Dafny 4.11; `dafny verify dfyconfig.toml` checks the whole project.

| file | component |
|---|---|
| `Journal.dfy`, `JournalRuns.dfy`, `JournalFaults.dfy`, `Drain.dfy` | append-only event journal, its rotation into a content-addressed archive chain, and the outbox drain that feeds it |
| `Sessions.dfy`, `Workspaces.dfy`, `Operations.dfy` | cloud control plane: epochs and revocation, workspace lifecycle and quota, exactly-once operations |
| `Authority.dfy`, `CanonicalJson.dfy`, `JsonReader.dfy` | deny-by-default authorization evaluator, the canonical text its digests are taken of, and a JSON reader written here to state what that text means |
| `Transactions.dfy`, `Retry.dfy` | per-handle transaction queue with after-commit callbacks and a commit counter, and the whole-command retry the counter justifies |
| `ConsoleFeed.dfy` | cursor pagination over a log that grows and is pruned |
| `ConfigStore.dfy` | stale-copy writers merging into one config file, and nearest-ancestor lookup |
| `TarFormat.dfy`, `TarArchive.dfy` | deterministic ustar writer, with a reader written here to state the round trip |
| `EditDistance.dfy` | one-row edit distance and the command suggestion |
| `IdentityCodes.dfy` | single-use authorization codes and the token time window |
| `Common.dfy`, `Sorting.dfy` | shared helpers; sorting by a key under an arbitrary total order |

Conventions. A file system or database is a map. SHA-256 is a total function; where a claim
needs it to be collision-free the lemma says so, and in `Operations` and `Authority` a digest
is the value it was taken of. Clocks, random values, provisioner answers and failures are
parameters, so every statement holds for all of them. `localeCompare` is an arbitrary total
order. A call that is several SQL statements long is several steps, and runs are arbitrary
sequences of steps.

## Where the code and the expectation differ

Each of these is stated as an exact condition, with a concrete run where one is needed.

- `checkpointJournal` does not validate its options and does not check that its archive name
  is free. A rotation keeps the history reachable if and only if its options are valid and the
  name is not already in the chain (`JournalRuns.RotationExact`); collision-free digest
  prefixes make the second half automatic (`JournalRuns.CollisionFreeTargetIsFresh`). Witnesses:
  `JournalRuns.BlankReasonLosesTheHistory`, `JournalRuns.CollidingNamesLoseTheHistory`.
- A rotation whose cursor is below a journaled sequence lets that event be journaled a second
  time, and no other rotation does (`JournalRuns.RepeatsExactly`,
  `JournalRuns.LowCursorJournalsTwice`).
- Rotation is failure-atomic except under a double fault: when installing the checkpoint fails
  and the rollback fails too, the old content is only in the archive
  (`JournalModel.FailureAtomicExactly`, `JournalModel.DoubleFaultStrands`,
  `JournalFaults.FaultyRotationExactly`).
- `reconcileWorkspace` and `restoreBackup` write without a status guard. They are exactly the
  statements that lift a suspension (`Workspaces.SuspensionLiftedExactly`,
  `Workspaces.ReconcileCanLiftASuspension`), and reviving a deleted workspace of a full tenant
  is the only way past a quota (`Workspaces.QuotaKeptExactly`,
  `Workspaces.RestoreCanExceedTheQuota`).
- A delegated request for an action with an eligibility rule can be allowed although the
  subject's own request is not: it is exactly when the subject lacks the eligibility
  (`Authority.DelegationOnlyNarrows`, `Authority.DelegatedApprovalExceedsTheSubject`).
- Feed cursor 0 is exempt from the expiry check, and the snapshot of an empty workspace hands it
  out. Following it is gap-free exactly when none of the workspace's events was pruned before the
  first non-empty page (`ConsoleFeed.FollowingLeavesNoGap`, `ConsoleFeed.SnapshotIsFollowedExactly`,
  `ConsoleFeed.SnapshotCanLoseAnEvent`).
- Leaving the commit counter where it was does not by itself make a replay safe: a transaction the
  attempt left queued can commit domain work later, beside the replay's own
  (`Retry.ReplayIsSafeExactly`, `Retry.LeftoverCommitsBesideTheReplay`).
- A call aimed at a transaction's handle from outside its body opens a savepoint that is counted,
  and whose callbacks are called, although the outermost transaction may still roll back. The
  counter is exact for outermost transactions if and only if no domain savepoint committed, and
  calls aimed at an opened handle or at the enclosing transaction never open one
  (`Transactions.CounterIsOutermostExactly`, `Transactions.CallsStayLastExactly`,
  `Transactions.DisciplinedRunsCountOutermost`, `Transactions.UndoneSavepointIsCounted`); counting
  undone work also blocks a safe replay (`Retry.UndoneWorkBlocksReplay`).
- A callback registered in the context of a transaction whose caller has resumed, as detached work
  does, is never called although the transaction committed. Callbacks run once exactly when none
  comes that late (`Transactions.CallbacksRunOnceExactly`, `Transactions.RegisteredIsCalledExactly`,
  `Transactions.LateCallbackIsLost`).
- Domain work inlined into an operational transaction is not counted, so a command that committed
  it is replayed (`Retry.InlinedWorkIsAppliedTwice`); `Retry.ReplayIsSafeExactly` includes it in the
  condition.
- A call made inside a transaction but aimed at the handle it was opened on waits behind that
  transaction (`Transactions.RootCallWaitsForItsCaller`).
- The token endpoint reads the clock before it awaits the body, so a stalled request redeems a
  code later than 60 s after its issue, until the next authorize request purges it
  (`IdentityCodes.RedeemsExactly`, `IdentityCodes.StalledBodyRedeemsLate`).
- The prefix test of `inheritedSpaceOwnedElsewhere` does not see a binding of the root directory
  (`ConfigStore.PrefixTestAgreesExactly`).
- A path of 101 bytes whose only slash is the first loses that slash in the ustar split
  (`TarFormat.RejoinsExactly`, `TarFormat.LeadingSlashIsDropped`).
- `saveConfig` goes on when its journal record cannot be appended, so the journal reproduces the
  bindings exactly when every save that binds or unbinds was recorded
  (`ConfigStore.JournalReproducesBindings`, `ConfigStore.LostRecordBreaksTheFold`).
- A saver whose stale copy still has a directory binds it again after somebody else unbound it
  (`ConfigStore.StaleCopyRebinds`).
- A code generator that repeats itself lets a code be redeemed twice, so freshness is a
  premise (`IdentityCodes.RepeatedCodeRedeemsTwice`).
- `onboard` is replayed even after its attempt committed (`Retry.OnboardReplaysAfterACommit`).

## Model

| member | source | states |
|---|---|---|
| `JournalModel.Journal.AppendJournalEvent` | packages/tasq-cli/src/journal.ts:100-145 | the scan loop's result is decided by the first offending line and, without one, by whether the sequence exceeds the checkpoint cursor and every journaled sequence; the file changes only when the event is appended |
| `JournalModel.LeadingExactly` | packages/tasq-cli/src/journal.ts:53-90 | the leading checkpoint is the first line that is not blank, exactly when it is a version 1 checkpoint with a tenant, an actor, a reason that is not blank and safe integers |
| `JournalModel.OutcomeExactly` | packages/tasq-cli/src/journal.ts:100-145 | stated on the lines: the first line that is malformed, lacks an id, or has the event's id or sequence decides the outcome; without one the event is appended exactly when its sequence exceeds every journaled one and, without a checkpoint, zero |
| `JournalModel.CoveredExactly` | packages/tasq-cli/src/journal.ts:100-145 | an event is reported covered exactly when it is at or below the cursor of the leading checkpoint |
| `JournalModel.Journal.CheckpointJournal` | packages/tasq-cli/src/journal.ts:152-235 | returns exactly when nothing it depends on throws (reuse with an escaping archive path included); a new checkpoint has the options' tenant, cursor, event id, actor and time and the trimmed reason, and is what the journal then holds; for every combination of faults the files left behind are those of the specified rollback |
| `JournalModel.FailureAtomicExactly` | packages/tasq-cli/src/journal.ts:198-227 | whatever throws, the old segment is at its path or the rotation is complete if and only if the faults do not strand it; stranded content is in the archive, success is the full rotation, and no other file is touched |
| `JournalModel.DoubleFaultStrands` | packages/tasq-cli/src/journal.ts:216-227 | a concrete double fault after which the journal is at its path no more |
| `JournalModel.Journal.VerifyArchiveChain` | packages/tasq-cli/src/journal.ts:252-288 | terminates on every file map, cyclic ones included; accepts if and only if an intact predecessor chain exists, and counts that chain |
| `JournalModel.ChainUnique` | packages/tasq-cli/src/journal.ts:252-288 | a checkpoint has at most one predecessor chain |
| `JournalModel.ChainDistinct` | packages/tasq-cli/src/journal.ts:267-271 | an intact chain never visits an archive twice, so reporting a cycle never rejects an intact one |
| `JournalModel.TamperingIsDetected` | packages/tasq-cli/src/journal.ts:272-283 | an archive of an intact chain that is gone or has another digest or size makes the chain not intact, whatever else was changed behind it |
| `JournalModel.WalkStops` | packages/tasq-cli/src/journal.ts:260-283 | whichever check stops the walk, no intact chain exists |
| `JournalRuns.AppendKeeps` | packages/tasq-cli/src/journal.ts:100-145 | an append keeps the archive chain and adds exactly the appended event to the history |
| `JournalRuns.RotationKeeps` | packages/tasq-cli/src/journal.ts:152-235 | a sound rotation prepends the old segment to the chain and loses no event |
| `JournalRuns.RotationInstalls` | packages/tasq-cli/src/journal.ts:177-200 | for valid options the leading checkpoint after a rotation has the tenant, cursor, event id, actor and time of the options and the trimmed reason, and its previous segment is the path, digest and size under which the old content can be read |
| `JournalRuns.RepeatChangesNothingExactly` | packages/tasq-cli/src/journal.ts:147-176 | repeating a rotation immediately changes nothing if and only if tenant, cursor and event id are the same, whatever the actor, reason and time |
| `JournalRuns.RotationExact` | packages/tasq-cli/src/journal.ts:152-235 | a rotation leaves a readable checkpoint with the whole history behind it if and only if its options are valid and its archive name is not in the chain |
| `JournalRuns.BlankReasonLosesTheHistory` | packages/tasq-cli/src/journal.ts:53-79 | a concrete rotation with a blank reason that is accepted and leaves no readable checkpoint |
| `JournalRuns.CollidingNamesLoseTheHistory` | packages/tasq-cli/src/journal.ts:290-302 | a concrete digest collision: the same rotation twice overwrites its own archive and the history is unreachable |
| `JournalRuns.CollisionFreeTargetIsFresh` | packages/tasq-cli/src/journal.ts:290-302 | content-addressed names with collision-free prefixes are never already in the chain |
| `JournalRuns.RunConserves` | packages/tasq-cli/src/journal.ts:100-288 | in every sound run from an empty journal the events reported appended are, in order and multiplicity, the reachable archives followed by the active segment, one archive per counted rotation |
| `JournalRuns.VerifierCountsRotations` | packages/tasq-cli/src/journal.ts:252-288 | after every sound run the chain is intact and its length is the number of non-reused rotations of a non-empty journal |
| `JournalRuns.ValidRunIsSound` | packages/tasq-cli/src/journal.ts:152-302 | with collision-free prefixes every run whose rotations have valid options is sound |
| `JournalRuns.CoveringRunIsOrdered` | packages/tasq-cli/src/journal.ts:100-288 | when each rotation's cursor is at or above everything journaled, the whole chain is strictly increasing and every appended event is in it exactly once; RepeatsExactly says when a rotation breaks this |
| `JournalRuns.RepeatsExactly` | packages/tasq-cli/src/journal.ts:100-235 | after a rotation of a duplicate-free history some later append repeats an event if and only if the cursor is below a journaled sequence |
| `JournalRuns.LowCursorJournalsTwice` | packages/tasq-cli/src/journal.ts:100-145 | a concrete run that journals one event twice after a rotation below its sequence |
| `JournalFaults.FaultyRotationExactly` | packages/tasq-cli/src/journal.ts:198-227 | a rotation that may fail anywhere keeps the history if and only if it does not strand it and its move back does not remove an archive of the chain |
| `JournalFaults.FaultyRunConserves` | packages/tasq-cli/src/journal.ts:100-235 | in every run of appends and rotations that may fail anywhere, history is conserved in order and multiplicity as long as no step loses it |
| `JournalFaults.CollisionFreeLosesByStrandingOnly` | packages/tasq-cli/src/journal.ts:198-227 | with collision-free digest prefixes a failing rotation loses history only by stranding it |
| `Drain.VerifyCheckpointCoverage` | packages/tasq-cli/src/runtime.ts:432-479 | accepts exactly the checkpoints of this tenant whose cursor is backed by the database row of their event and whose archive chain is intact |
| `Drain.RotationCovers` | packages/tasq-cli/src/runtime.ts:432-479 | a sound rotation whose event is at its cursor in the database is at once a verified coverage boundary for its tenant |
| `Drain.RedeliveryIsRecognised` | packages/tasq-cli/src/journal.ts:123-126 | an event whose append survived a crash is recognised when it is leased again |
| `Drain.AppendKeepsCoverage` | packages/tasq-cli/src/runtime.ts:432-479 | appending never invalidates the coverage of the leading checkpoint |
| `Drain.ActiveNotInOwnChain` | packages/tasq-cli/src/journal.ts:252-288 | a journal file is never an archive of its own intact chain |
| `Drain.DeliverOne` | packages/tasq-cli/src/runtime.ts:390-408 | undisturbed, a lease is acknowledged exactly when nothing failed and a covered event passed coverage verification, and then the event is in the segment or verifiably covered; the call is an append, a reading and an acknowledgement turn of the state machine below |
| `Drain.Acknowledge` | packages/tasq-cli/src/runtime.ts:392-405 | whatever happened to the journal since the append, acknowledges exactly when the acknowledgement works and, for a covered event, coverage holds now up to its sequence |
| `Drain.DrainEventJournal` | packages/tasq-cli/src/runtime.ts:361-425 | the segment only grows and stays ordered, every acknowledged event is settled, acknowledgements are a prefix of the leases, and the report tallies with the growth of the segment |
| `Drain.DrainRunsAreSafe` | packages/tasq-cli/src/runtime.ts:361-479 | for any leases, crash points and sound rotations, also between an append, the reading of the checkpoint and the acknowledgement: active segment duplicate-free and strictly ordered, history conserved, each acknowledged event in it or at or below the cursor of a verified checkpoint |
| `Drain.ValidTurnsAreSound` | packages/tasq-cli/src/runtime.ts:361-425 | with collision-free digest prefixes every drain whose rotations have valid options is sound |
| `Sessions.RunSettles` | packages/tasq-cloud-control-plane/src/index.ts:658-709 | under every interleaving each identity ever read is live or can never be live again |
| `Sessions.LiveUntilKilled` | packages/tasq-cloud-control-plane/src/index.ts:1115-1274 | an identity stays live exactly until a suspension, recovery or device revocation hits it |
| `Sessions.RevocationIsFinal` | packages/tasq-cloud-control-plane/src/index.ts:1115-1274 | after such a statement no session carrying the earlier read authenticates, even when its row is inserted later |
| `Sessions.AuthenticatesExactly` | packages/tasq-cloud-control-plane/src/index.ts:1200-1242 | a session authenticates if and only if it is unrevoked, unexpired, its CSRF token matches and nothing killed its identity since the read |
| `Sessions.IdentitiesAreJoined` | packages/tasq-cloud-control-plane/src/index.ts:1139-1198 | in every run each identity read comes from a read whose issuer and subject are those under which the run registered that human, for a device the run enrolled for that very human |
| `Sessions.SessionsAreJoined` | packages/tasq-cloud-control-plane/src/index.ts:1139-1198 | the same for the identity of every session |
| `Sessions.SubjectsAreUnique` | packages/tasq-cloud-control-plane/src/index.ts:1028-1084 | in every run at most one principal of a tenant has a given issuer and subject |
| `Sessions.TenantsFollowTheRun` | packages/tasq-cloud-control-plane/src/index.ts:658-709 | in every run a tenant is active at epoch 1 until the first suspension after its creation, and then suspended at epoch 2 for good |
| `Sessions.PrincipalsFollowTheRun` | packages/tasq-cloud-control-plane/src/index.ts:1244-1274 | in every run a principal keeps the kind, issuer and subject it was registered with, and its recovery revision counts the recoveries since, of a human only |
| `Sessions.DevicesFollowTheRun` | packages/tasq-cloud-control-plane/src/index.ts:1115-1137 | in every run a device belongs to the principal it was enrolled for and is active until the first revocation of its revision since |
| `Sessions.NewHumanSignsInExactly` | packages/tasq-cloud-control-plane/src/index.ts:1028-1113 | registering, enrolling and reading the identity of a new principal succeeds if and only if it is a human of an active tenant in which no other has that issuer and subject |
| `Sessions.ControlPlane.IssueHumanSession` | packages/tasq-cloud-control-plane/src/index.ts:1139-1198 | issues exactly when the tenant is active, the principal is an active human with that issuer and subject, the device is its own and active, and the lifetime is allowed; the row carries the epoch, revisions and tokens, authenticates with its own tokens until it expires, and no other session is affected |
| `Sessions.ControlPlane.AuthenticateSession` | packages/tasq-cloud-control-plane/src/index.ts:1200-1242 | returns the session's identity exactly when it authenticates |
| `Sessions.ControlPlane.Suspend` | packages/tasq-cloud-control-plane/src/index.ts:658-709 | the tenant is suspended at the next epoch, its sessions are revoked and every other row is as it was; afterwards none of them authenticates and other tenants' sessions are untouched |
| `Sessions.ControlPlane.RevokeDevice` | packages/tasq-cloud-control-plane/src/index.ts:1115-1137 | succeeds exactly on the expected revision of an active device, which is then revoked at the next revision; its sessions stop authenticating, all others are unaffected |
| `Sessions.ControlPlane.RecoverHuman` | packages/tasq-cloud-control-plane/src/index.ts:1244-1274 | bumps the recovery revision of that principal and changes no other row; the principal's sessions stop authenticating, all others are unaffected |
| `Workspaces.RunsAreWellFormed` | packages/tasq-cloud-control-plane/src/index.ts:730-911 | under every interleaving a ready workspace has a deployment, an origin and a secret reference, and a deleted one has none |
| `Workspaces.RowsComeFromAnswers` | packages/tasq-cloud-control-plane/src/index.ts:730-911 | in every run the deployment and origin of a row are those of one answer given to a provision, reconcile or restore for that workspace, its secrets are that answer's or a later rotation's, and its storage is that of its insert; or it has no deployment |
| `Workspaces.CallsComeFromReads` | packages/tasq-cloud-control-plane/src/index.ts:842-893 | in every run a reconcile or delete under way began by reading a row it accepts, and its first write is behind it exactly when its mark came since or the row was being deleted already |
| `Workspaces.WritesFollowTheirCall` | packages/tasq-cloud-control-plane/src/index.ts:1536-1575 | an answer or a deletion changes anything only after the read and the mark of its own call |
| `Workspaces.TenantsComeFromInserts` | packages/tasq-cloud-control-plane/src/index.ts:597-656 | in every run a tenant exists exactly when one was inserted with a quota from 1 to 10000, and it keeps an inserted quota |
| `Workspaces.BackupsComeFromRequests` | packages/tasq-cloud-control-plane/src/index.ts:1477-1534 | in every run a workspace is restorable exactly when a backup was requested while it was ready |
| `Workspaces.RotationExactly` | packages/tasq-cloud-control-plane/src/index.ts:913-1000 | credential rotation replaces the secrets of a ready row by 1 to 32 others and changes nothing else |
| `Workspaces.SuspensionLiftedExactly` | packages/tasq-cloud-control-plane/src/index.ts:842-893 | one statement lifts a suspension if and only if it is one of the unguarded writes to that workspace |
| `Workspaces.SuspensionStays` | packages/tasq-cloud-control-plane/src/index.ts:790-840 | a suspension that overtakes provisioning survives every run without such a write, row unchanged |
| `Workspaces.TenantSuspensionExactly` | packages/tasq-cloud-control-plane/src/index.ts:658-709 | suspending a tenant suspends exactly its provisioning, ready and failed workspaces and changes nothing else in any row |
| `Workspaces.ReconcileCanLiftASuspension` | packages/tasq-cloud-control-plane/src/index.ts:842-893 | a concrete run in which a tenant is suspended while a reconcile, its row already marked, waits for the provisioner: the answer brings the workspace back to ready |
| `Workspaces.QuotaKeptExactly` | packages/tasq-cloud-control-plane/src/index.ts:730-788 | a statement leaves the quota if and only if it revives a deleted workspace of a full tenant |
| `Workspaces.RunsStayWithinQuota` | packages/tasq-cloud-control-plane/src/index.ts:730-911 | runs in which no unguarded write hits a deleted workspace stay within every quota |
| `Workspaces.AtomicCallsStayWithinQuota` | packages/tasq-cloud-control-plane/src/index.ts:842-893 | when reconcile and delete are served whole and no deleted workspace is restored, every run stays within every quota |
| `Workspaces.RestoreCanExceedTheQuota` | packages/tasq-cloud-control-plane/src/index.ts:1477-1534 | a concrete run that ends over quota because a deleted workspace was restored |
| `Workspaces.WorkspacePlane.ReconcileWorkspace` | packages/tasq-cloud-control-plane/src/index.ts:842-893 | returns a ready workspace as it is; a provisioning or failed one becomes ready with exactly the deployment, origin and secrets of the answer, or failed without one; refuses the rest, touches no other row and keeps the quota |
| `Workspaces.WorkspacePlane.DeleteWorkspace` | packages/tasq-cloud-control-plane/src/index.ts:1536-1575 | deletes exactly a confirmed, deployed, ready or deleting workspace, leaving its row without deployment, origin and secrets and freeing its place in the quota |
| `Operations.EffectsHappenOnce` | packages/tasq-cloud-control-plane/src/index.ts:526-595 | in every run each operation id has one operation row, one audit row and one committed call, or none of each |
| `Operations.RowsAreStable` | packages/tasq-cloud-control-plane/src/index.ts:526-595 | a recorded operation row never changes, whatever runs later |
| `Operations.ReplayAfterCommit` | packages/tasq-cloud-control-plane/src/index.ts:526-656 | later, the same input changes nothing and returns the recorded result; any other input under that id changes nothing and fails |
| `Provisioning.Provisioner.ProvisionWorkspace` | packages/tasq-cloud-control-plane/src/index.ts:730-840 | a fresh operation commits exactly under an active tenant with room; the row is ready with exactly the answer's deployment, origin and secrets, or failed without them; a replay returns the current row; a conflict or refusal changes nothing |
| `Authority.AuthoritySnapshot` | packages/tasq-authority/src/index.ts:425-450 | the map mirrors the last definition of each name, and the flag is true exactly when definitions are distinct, sound and registered, grants distinct and resolvable, eligibilities distinct |
| `Authority.DistinctByCount` | packages/tasq-authority/src/index.ts:442-448 | comparing the size of the id set with the list is exactly a test for distinct ids |
| `Authority.ChosenIsLeast` | packages/tasq-authority/src/index.ts:452-468 | nothing is chosen exactly when no grant supports the principal; otherwise the supporting grant that sorts first is |
| `Authority.GateExactly` | packages/tasq-authority/src/index.ts:530-563 | the chain of early denials passes exactly the admissible requests |
| `Authority.AllowedExactly` | packages/tasq-authority/src/index.ts:491-604 | a request is allowed if and only if it meets every condition, stated without any order of checks |
| `Authority.AllowedOnFields` | packages/tasq-authority/src/index.ts:409-604 | a request is allowed if and only if its fields say so: identity in time and for this audience, bindings and principals enabled and of this workspace, grants, delegation and eligibility active with notBefore <= now < expiresAt where set, for the whole workspace or this very resource, and naming this very action |
| `Authority.NamedGrantsApply` | packages/tasq-authority/src/index.ts:452-604 | the grants an allowance names are, field by field, in force for this principal, workspace, resource and action |
| `Authority.ExpiredGrantsDeny` | packages/tasq-authority/src/index.ts:414-421 | once every subject grant has expired the verdict is a denial |
| `Authority.TimeMattersAtBoundariesOnly` | packages/tasq-authority/src/index.ts:414-604 | two times with no boundary of any record of the request between them give the same verdict, reason and support |
| `Authority.DenialsAreTruthful` | packages/tasq-authority/src/index.ts:530-601 | every denial names a condition that really fails, and the late ones only after everything before them held |
| `Authority.ReasonIsTheFirst` | packages/tasq-authority/src/index.ts:530-603 | the reason is the first failing condition in the order of the checks |
| `Authority.AllowedNamesItsSupport` | packages/tasq-authority/src/index.ts:565-603 | an allowance names exactly the first-sorting supporting grant of the subject, and of the actor when there is one, with their set digests |
| `Authority.DelegationOnlyNarrows` | packages/tasq-authority/src/index.ts:571-601 | if a delegated request is allowed, the subject's direct request is allowed exactly when the subject is eligible, so always for actions without an eligibility rule |
| `Authority.DelegatedApprovalExceedsTheSubject` | packages/tasq-authority/src/index.ts:571-601 | a concrete delegated approval that is allowed while the subject's own is denied |
| `Authority.RevocationNeverWidens` | packages/tasq-authority/src/index.ts:414-421 | revoking any grants, delegation or eligibilities never turns a denial into an allowance |
| `Authority.OrderNeverMatters` | packages/tasq-authority/src/index.ts:491-604 | permuting permission sets, grants or eligibilities changes neither the decision nor its reason nor its supporting grants |
| `Authority.DigestIdentifiesRequest` | packages/tasq-authority/src/index.ts:480-494 | with distinct sort keys two requests share a digest exactly when one reorders the other |
| `Authority.DigestsAreOrderFree` | packages/tasq-authority/src/index.ts:491-529 | with distinct sort keys reordering changes neither the request digest nor the decision id |
| `Authority.DecisionIdIdentifies` | packages/tasq-authority/src/index.ts:491-529 | two decisions share an id exactly when request snapshot, time and verdict agree |
| `CanonicalJson.StringReadsBack` | packages/tasq-authority/src/index.ts:46-58 | reading an escaped string back yields its code units and the rest of the text, lone surrogates included |
| `CanonicalJson.EscapeIsShortest` | packages/tasq-authority/src/index.ts:46-58 | as JSON.stringify does: a unit stands for itself unless it is a control, a quote, a backslash or a lone surrogate, is escaped by a letter where JSON has one, and otherwise in hex |
| `CanonicalJson.PairsStandExactly` | packages/tasq-authority/src/index.ts:46-58 | two surrogates stand for themselves exactly when a high one is followed by a low one |
| `CanonicalJson.EqualText` | packages/tasq-authority/src/index.ts:46-58 | equal values have equal text whatever the key insertion order |
| `CanonicalJson.TextIsPrefixFree` | packages/tasq-authority/src/index.ts:46-58 | text followed by anything that does not continue a number determines the value and what follows |
| `CanonicalJson.CanonicalIsInjective` | packages/tasq-authority/src/index.ts:46-58 | two portable values have the same text if and only if they are equal as JSON values |
| `JsonReader.ReadsBack` | packages/tasq-authority/src/index.ts:46-58 | a JSON reader gives an equal value and the rest of the text back for every portable value, so canonical text is JSON text for its value |
| `Transactions.StepIsSafe` | packages/tasq-core/src/db.ts:66-146 | every step keeps submission order per handle, non-overlap, the callback log and the counter; whether a call is inlined, queued or its callback called at once is computed from its async context |
| `Transactions.RunsAreSafe` | packages/tasq-core/src/db.ts:49-146 | in every run and on every handle transactions begin in submission order only after earlier ones settled, work is inlined only into a running transaction, and the callbacks on a run's list are called once, in order, when its caller resumes after its commit, and never after its rollback; CallbacksRunOnceExactly says which registrations reach that list in time |
| `Transactions.InlinesExactly` | packages/tasq-core/src/db.ts:126-133 | a call that is not inlined is chained onto the last run submitted on its target; an inlined one adds no transaction and no count |
| `Transactions.RootCallWaitsForItsCaller` | packages/tasq-core/src/db.ts:126-133 | a call from inside a running transaction to the handle it was opened on begins only after that transaction settled, in every continuation, so a body that awaits it never settles |
| `Transactions.NestsExactly` | packages/tasq-core/src/db.ts:102-124 | a run enters its body, and commits when it asks to, exactly when every run it is nested in is still running |
| `Transactions.RegisteredIsCalledExactly` | packages/tasq-core/src/db.ts:68-75 | for every entered context, inlined work included: in every continuation the callback stands in its place and is called exactly when the transaction's caller resumes, if and only if that caller had not resumed when it was registered; otherwise what was called never changes |
| `Transactions.CallbacksRunOnceExactly` | packages/tasq-core/src/db.ts:66-124 | in every run each registered callback is called once, in order, when its transaction's caller resumes and never otherwise, if and only if none is registered in the context of a transaction whose caller has resumed |
| `Transactions.LateCallbackIsLost` | packages/tasq-core/src/db.ts:68-75 | a concrete run: both transactions commit, work left over from the first registers a callback, and no continuation calls it |
| `Transactions.UnscopedRunAtOnce` | packages/tasq-core/src/db.ts:68-75 | in every run the callbacks handed over outside any transaction are called once, at once and in order |
| `Transactions.CounterIsExact` | packages/tasq-core/src/db.ts:76-93 | once callers have resumed the counter is the number of committed domain runs, savepoints among them |
| `Transactions.CounterIsOutermostExactly` | packages/tasq-core/src/db.ts:76-93 | once callers have resumed the counter is the number of committed outermost domain transactions if and only if no domain savepoint committed |
| `Transactions.CallsStayLastExactly` | packages/tasq-core/src/db.ts:117-124 | a step keeps every callback behind the outermost commit if and only if it does not resume the caller of a savepoint, with callbacks, some outer transaction of which has not committed |
| `Transactions.DisciplinedRunsCountOutermost` | packages/tasq-core/src/db.ts:49-146 | in runs whose calls are aimed at an opened handle or at the enclosing transaction, the counter is the number of committed outermost domain transactions and every callback comes after the commit of its outermost transaction |
| `Transactions.UndoneSavepointIsCounted` | packages/tasq-core/src/db.ts:102-133 | a concrete run: a savepoint opened through a transaction's handle is counted and its callback called, then the only outermost transaction rolls back |
| `Transactions.Queues.Enqueue` | packages/tasq-core/src/db.ts:102-116 | a transaction is chained onto the last one submitted on its handle, whatever its fate |
| `Transactions.Queues.CallInTransaction` | packages/tasq-core/src/db.ts:126-133 | the scope lookup inlines or queues as specified |
| `Transactions.Queues.CallerResumes` | packages/tasq-core/src/db.ts:117-124 | the caller of a committed transaction counts it and calls exactly the queued callbacks in order |
| `Retry.RunWithRetry` | packages/tasq-cli/src/index.ts:845-884 | at most 7 attempts and 6594 ms of sleep; stops at the first attempt that must not be replayed and reports its outcome |
| `Retry.SleptBound` | packages/tasq-cli/src/index.ts:877-879 | n backoffs sum to at most the doubling series plus 49 ms each |
| `Retry.SleptExactly` | packages/tasq-cli/src/index.ts:877-879 | n backoffs are exactly 100 ms doubling each time plus their jitter |
| `Retry.ReplayedAttemptNeverCommits` | packages/tasq-cli/src/index.ts:845-884 | no run submitted by a cleanly replayed attempt ever commits domain work, its own or inlined, during later attempts or after the last |
| `Retry.AtMostOneAttemptCommits` | packages/tasq-cli/src/index.ts:845-884 | for every command except onboard, of all runs its attempts submit only those of the last attempt ever commit domain work, its own or inlined, when each replayed attempt was clean in the sense of ReplayIsSafeExactly |
| `Retry.ReplayIsSafeExactly` | packages/tasq-cli/src/index.ts:858-868 | with the counter unmoved, no run the attempt submitted can ever commit domain work, its own or inlined, if and only if no domain run was left pending and every operational run committed without inlined work or cannot commit |
| `Retry.CarriesExactly` | packages/tasq-core/src/db.ts:126-146 | in every run a transaction does domain work exactly when some call submitted it for that or was inlined into it while it ran |
| `Retry.LeftoverCommitsBesideTheReplay` | packages/tasq-cli/src/index.ts:845-884 | a concrete run in which a replayed attempt's queued leftover and the replay's own transaction both commit |
| `Retry.InlinedWorkIsAppliedTwice` | packages/tasq-core/src/db.ts:126-146 | a concrete run: domain work inlined into operational transactions is not counted, so an attempt that committed it is replayed and commits it again |
| `Retry.UndoneWorkBlocksReplay` | packages/tasq-cli/src/index.ts:858-868 | a concrete attempt that left nothing durable and is not replayed, because an undone savepoint was counted |
| `Retry.OperationalWorkNeverCounts` | packages/tasq-core/src/db.ts:135-146 | operational transactions never move the counter, so they never block a replay; domain work inlined into them does not move it either |
| `Retry.OnboardReplaysAfterACommit` | packages/tasq-cli/src/index.ts:864-868 | the exemption is real: a committed onboard attempt is replayed |
| `ConsoleFeed.AcceptedBatchHasNoGap` | packages/tasq-core/src/console-live.ts:95-176 | an accepted positive cursor yields exactly the workspace's events up to the next cursor, pruned or not, and hasMore is exact |
| `ConsoleFeed.PageExactly` | packages/tasq-core/src/console-live.ts:142-176 | for every accepted cursor, 0 included, the page is the first limit of the retained events ahead, hasMore holds if and only if there are more than limit, and the next cursor is on the last event of the page or stays |
| `ConsoleFeed.AcceptedExactly` | packages/tasq-core/src/console-live.ts:95-141 | a limit is accepted from 1 to 100, cursor 0 always, and a positive one exactly when the workspace has a retained event at or before it and one at or after it |
| `ConsoleFeed.PollsDeliverExactly` | packages/tasq-core/src/console-live.ts:95-176 | over a table that does not change n polls deliver exactly the first n times limit events, so a follower is caught up after exactly the polls its limit requires |
| `ConsoleFeed.Decode` | packages/tasq-core/src/console-live.ts:51-69 | decoding yields n exactly for the token encoded for this workspace and the safe integer n |
| `ConsoleFeed.AcceptedWhileRetained` | packages/tasq-core/src/console-live.ts:131-141 | a cursor standing on one of the workspace's events is accepted exactly while that event is retained; once pruned it is an error, never a gap |
| `ConsoleFeed.FollowingLeavesNoGap` | packages/tasq-core/src/console-live.ts:95-176 | following nextCursor from any cursor across appends and prefix pruning is interrupted or delivers every event once and in order, without a gap if and only if the cursor is positive or none of the workspace's events was pruned before the first non-empty page |
| `ConsoleFeed.SnapshotIsFollowedExactly` | packages/tasq-core/src/console-live.ts:106-176 | following a snapshot's cursor is interrupted or delivers every event appended after the snapshot, if and only if that cursor is positive or none of those events was pruned before the first non-empty page |
| `ConsoleFeed.SnapshotCanLoseAnEvent` | packages/tasq-core/src/console-live.ts:139-141 | a concrete run: the snapshot of an empty workspace is followed past a pruned event without an error |
| `ConsoleFeed.ZeroCursorIsGapFreeExactly` | packages/tasq-core/src/console-live.ts:131-163 | a page from cursor 0 is gap-free exactly when no event of the workspace was pruned |
| `ConsoleFeed.ZeroCursorSkipsAPrunedEvent` | packages/tasq-core/src/console-live.ts:139-163 | a concrete page from cursor 0 that leaves out an event and reports nothing |
| `ConfigStore.MergeDirectoryMap` | packages/tasq-cli/src/config.ts:457-470 | the caller's entries win, other entries on disk survive unless named, and the survivors are reported |
| `ConfigStore.ConfigFile.SaveConfig` | packages/tasq-cli/src/config.ts:486-588 | writes the merge exactly when something changed: the caller's fields, and for spaces and projections the caller's entries with those on disk that are neither in its copy nor named; appends the difference to the journal when the append works, and reports it as journaled only when the chmod after it works too |
| `ConfigStore.SaveAlwaysInstalls` | packages/tasq-cli/src/config.ts:505-515 | skipping the write when nothing changed loses nothing: the file holds the merge either way |
| `ConfigStore.ChangeSaysWhatDiffers` | packages/tasq-cli/src/config.ts:533-560 | the record of a save lists exactly the fields and bindings that differ between the file before and after it, and the bindings it preserved |
| `ConfigStore.UnboundExactly` | packages/tasq-cli/src/config.ts:457-529 | a save unbinds a directory if and only if it names it and its own copy lacks it |
| `ConfigStore.BindingsSurvive` | packages/tasq-cli/src/config.ts:457-529 | over any interleaving of stale savers a bound directory stays bound until a save names it |
| `ConfigStore.JournalReproducesBindings` | packages/tasq-cli/src/config.ts:533-588 | over any sequence of saves, folding the journal's added and removed lists reproduces the bound set at every moment if and only if each save's record was appended or the save bound and unbound nothing |
| `ConfigStore.OneSaveFoldsExactly` | packages/tasq-cli/src/config.ts:486-588 | one save keeps the fold right if and only if its record was appended or it bound and unbound nothing |
| `ConfigStore.LostRecordBreaksTheFold` | packages/tasq-cli/src/config.ts:562-588 | a concrete save whose record cannot be appended: a directory is bound and the journal knows of none |
| `ConfigStore.StaleCopyRebinds` | packages/tasq-cli/src/config.ts:457-470 | whatever happened on disk, an entry of the saver's copy is bound afterwards |
| `ConfigStore.AncestorOfParent` | packages/tasq-cli/src/config.ts:308-322 | the string-prefix notion of ancestor agrees with one step of the parent walk |
| `ConfigStore.ResolveDirectorySpace` | packages/tasq-cli/src/config.ts:308-322 | finds the closest bound ancestor, and nothing exactly when no ancestor is bound |
| `ConfigStore.ResolveEffectiveSpace` | packages/tasq-cli/src/config.ts:324-354 | flag, then environment, then closest binding; the global default exactly when none applies |
| `ConfigStore.InheritedSpaceOwnedElsewhere` | packages/tasq-cli/src/config.ts:356-372 | none inside one of the owners, and all directories bound to the space when resolution fell through to the default |
| `ConfigStore.PrefixTestAgreesExactly` | packages/tasq-cli/src/config.ts:368-368 | the string-prefix test agrees with the ancestor walk everywhere except below a binding of the root directory |
| `TarFormat.SplitTarPath` | scripts/release/deterministic-tar.ts:18-27 | the search loop finds the last slash where both halves fit |
| `TarFormat.SplitAcceptsExactly` | scripts/release/deterministic-tar.ts:18-27 | a path is accepted exactly when it is short or has a slash where both halves fit |
| `TarFormat.RejoinsExactly` | scripts/release/deterministic-tar.ts:18-27 | a reader's rejoin gives the path back except exactly in the dropped-slash shape |
| `TarFormat.LeadingSlashIsDropped` | scripts/release/deterministic-tar.ts:18-27 | a concrete 101-byte path that loses its slash |
| `TarFormat.OctalFieldAccepts` | scripts/release/deterministic-tar.ts:12-16 | a field is written exactly when the value fits its digits |
| `TarFormat.OctalFieldDecodes` | scripts/release/deterministic-tar.ts:12-16 | a written field has its full width and decodes to its value |
| `TarFormat.ChecksumFits` | scripts/release/deterministic-tar.ts:43-44 | every header's byte sum fits six octal digits and decodes |
| `TarFormat.WriteString` | scripts/release/deterministic-tar.ts:6-10 | writes exactly the value's bytes at the offset and nothing else, or refuses unchanged |
| `TarFormat.BuildHeader` | scripts/release/deterministic-tar.ts:29-46 | the header built in place is the specified block, and fails exactly when a field does not fit |
| `TarFormat.HeaderParses` | scripts/release/deterministic-tar.ts:29-46 | every header's checksum verifies and its numbers decode; its path reads back exactly when it has no NUL and is not the dropped-slash shape |
| `TarFormat.HeaderRest` | scripts/release/deterministic-tar.ts:29-46 | owner, group and time are zero, the magic is ustar version 00 and all other fields are empty, so no header depends on where or when it was written |
| `TarFormat.HeaderIsNotZero` | scripts/release/deterministic-tar.ts:29-46 | no header is mistaken for the end marker |
| `TarArchive.WriteArchive` | scripts/release/deterministic-tar.ts:83-98 | the chunk loop produces the specified archive, failing exactly when some header does |
| `TarArchive.ArchiveReadsBack` | scripts/release/deterministic-tar.ts:83-98 | reading an archive back yields exactly the entries written if and only if no path has a NUL or the dropped-slash shape, and its length is a multiple of 512 |
| `TarArchive.ArchiveIsRead` | scripts/release/deterministic-tar.ts:83-98 | whatever its paths, an archive reads back as its entries with the paths a ustar reader finds in their headers |
| `TarArchive.EntryHeaderSays` | scripts/release/deterministic-tar.ts:86-91 | directories are type 5 with mode 755, files type 0 with mode 755 if executable and 644 otherwise, digit by digit |
| `TarArchive.ArchiveEnds` | scripts/release/deterministic-tar.ts:90-97 | an archive is one block for each entry and as many as its content needs, then 1024 zero bytes |
| `TarArchive.EntriesAreTheTree` | scripts/release/deterministic-tar.ts:55-81 | an entry is in the archive if and only if it describes the root or a file or directory that some sequence of names leads to |
| `TarArchive.ListingOrderIsIrrelevant` | scripts/release/deterministic-tar.ts:55-81 | the order in which directories list their children affects neither the entries nor the bytes |
| `TarArchive.SmallTreeInOrder` | scripts/release/deterministic-tar.ts:55-81 | a concrete listing out of order: names are visited in order and a directory comes before what is in it |
| `EditDistance.NoCheaperScript` | packages/tasq-cli/src/index.ts:211-225 | no insert, delete and substitute script is cheaper than the distance |
| `EditDistance.CheapestScript` | packages/tasq-cli/src/index.ts:211-225 | a script of exactly that cost exists |
| `EditDistance.ComputeDistance` | packages/tasq-cli/src/index.ts:211-225 | the row-by-row program returns the distance |
| `EditDistance.CellIsDistance` | packages/tasq-cli/src/index.ts:211-225 | the recurrence by last letters that the rows fill in agrees with the distance by first letters |
| `EditDistance.Symmetric` | packages/tasq-cli/src/index.ts:211-225 | the distance is symmetric |
| `EditDistance.ZeroExactlyWhenEqual` | packages/tasq-cli/src/index.ts:211-225 | the distance is zero exactly for equal words |
| `EditDistance.Triangle` | packages/tasq-cli/src/index.ts:211-225 | the triangle inequality |
| `EditDistance.PrefixDistance` | packages/tasq-cli/src/index.ts:197-209 | the prefix shortcut by length difference is the distance |
| `EditDistance.CommandDistance` | packages/tasq-cli/src/index.ts:202-204 | the shortcut or the row program, whichever applies, returns the distance |
| `EditDistance.NearestCommand` | packages/tasq-cli/src/index.ts:197-209 | the first true minimiser within budget, and nothing exactly when none is within budget |
| `IdentityCodes.AcceptanceWindow` | packages/tasq-cloud-control-plane/src/oidc-claims.ts:9-18 | a token minted at m is accepted exactly from 30 s before its whole second until 300 s after it |
| `IdentityCodes.ClaimsAcceptedExactly` | packages/tasq-cloud-control-plane/src/oidc-claims.ts:9-18 | any claims are accepted from 30 s before the later of issue and authentication until expiry, if that is within 300 s of issue, and so for less than 330 s |
| `IdentityCodes.CodeStore.PurgeExpired` | packages/tasq-cloud-control-plane/src/reference-identity.ts:160-162 | the loop removes exactly the expired codes |
| `IdentityCodes.CodeStore.Authorize` | packages/tasq-cloud-control-plane/src/reference-identity.ts:159-174 | purges, then issues exactly when there is capacity |
| `IdentityCodes.CodeStore.TokenHandled` | packages/tasq-cloud-control-plane/src/reference-identity.ts:180-198 | looks the code up when the body has arrived, against the clock read before: redeems exactly a stored, then unexpired code with right credentials, once, for a token with its nonce; otherwise the codes are unchanged |
| `IdentityCodes.RunsAreSingleUse` | packages/tasq-cloud-control-plane/src/reference-identity.ts:92-198 | in every run with fresh codes each is redeemed at most once, by a request whose clock was read less than 60 s after issue, with its own nonce, and at most 1024 are stored |
| `IdentityCodes.RedeemsExactly` | packages/tasq-cloud-control-plane/src/reference-identity.ts:159-198 | with a clock that does not run backwards, handling a request redeems a code exactly when it was issued and not redeemed, the request read the clock before it expired, and no authorize request came since it expired |
| `IdentityCodes.PromptRequestRedeems` | packages/tasq-cloud-control-plane/src/reference-identity.ts:180-198 | handled within 60 s of issue by the wall clock, a code is redeemed exactly when it has not been before: purging and capacity never lose a live code |
| `IdentityCodes.StalledBodyRedeemsLate` | packages/tasq-cloud-control-plane/src/reference-identity.ts:180-198 | a concrete request whose body stalls for an hour and still redeems |
| `IdentityCodes.RepeatedCodeRedeemsTwice` | packages/tasq-cloud-control-plane/src/reference-identity.ts:170-174 | without freshness a code can be redeemed twice |

## Left out

- SQLite and LibSQL, Drizzle, real file system calls, fsync, chmod, gzip, hashing and signatures: maps, atomic steps and total functions stand in for them.
- `withJournalLock` timing and rotation of the command journal: each journal call is atomic here.
- Journal text: a line is already parsed, sequences and sizes are safe integers, and the temporary file name is fresh.
- Clock readings beyond the range of a JavaScript Date (8.64e15 ms), at which naming an archive throws.
- Outbox internals and everything under `service/`: the outbox may lease anything next.
- Drain.DrainEventJournal: a crash ends the call, and lease timing, attempts and backoff belong to the outbox.
- Journal tailing, doctor repair and the `--json` views over the journal.
- The `serialized` write tail of the control plane: operations are transactions, other methods are interleaved statements.
- `createTenant` and `registerPrincipal` as calls of their own: their exactly-once behaviour is `Operations` with an arbitrary effect, their rows are steps of `Sessions` and `Workspaces`.
- Workspaces.RunsAreWellFormed: credential rotation is its guarded update; the comparison with the references read earlier and the rotation table are not modelled.
- Workspaces.RestoreCanExceedTheQuota: a backup is restorable from its request on; expiry and the backup table are not modelled.
- Workload credentials, support access, exports, retention sweeps, billing, incidents, audit listing: they add flat steps of the kinds already modelled.
- The direct SQL update in `packages/tasq-cloud-control-plane/src/runtime.ts`: it bypasses the class.
- The built-in action registry table and the shape checks of requests: the registry is a parameter, requests are well-formed values, and `CanonicalIsInjective` is not replayed for each record type.
- Authority.OrderNeverMatters: supporting grant ids are compared as a multiset and set digests as a set, which is what their sorted lists are determined by.
- Callbacks do not throw, and a savepoint whose outer transaction has ended neither begins nor commits.
- Retry.AtMostOneAttemptCommits: a run belongs to the attempt during which it was submitted.
- Error texts and terminal output of the CLI; only exit codes are kept.
- Cursor encoding as base64url JSON, its length limit and the trimming of workspace ids: a cursor is its decoded value or undecodable.
- ConfigStore.ResolveDirectorySpace: directories are canonical absolute paths with "/" separators; symlink resolution is outside.
- Config journal fields other than the changes (time, command line, preserved projections), validation on load, corrupt files (treated as absent), projection commands and `bindDirectorySpace`'s messages.
- Stat and symlink behaviour of the tree walk and the UTF-8 encoding of names: trees hold byte names.
- HTTP plumbing of the reference identity provider and the OIDC callback; credentials are one boolean.
- Browser BFF, HTTP clients, site generator, console lifecycle locks, release and dogfood scripts: I/O.
