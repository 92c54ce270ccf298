# Verified models of the deployment, evidence and packaging tools

This project models the parts of the repository's `scripts/` directory whose
correctness depends on more than one function, and proves what they guarantee.

* **Journaled transactions.** Four protocols write a journal, change a directory
  or a database one step at a time, and take one step as the commit: the
  dependency-lock promotion, the release cutover with its rollback, the guarded
  database migration, and the evidence promotion. Every file-system, database or
  audit step of a model asks a *fate* whether it works, raises or kills the
  process (module `Base`); the fate is arbitrary, so a contract that speaks of
  the final state holds for every exception and every crash, also inside
  recovery. What a directory with a journal *means* is a function of its state
  (`Committed`, `InForce`, `Outlook`, `Replay`); the contracts say how each call
  changes that meaning, and the run methods lift this to any sequence of calls.
* **The operation lock** is a state machine over single file operations, process
  events, reboots and clock moves in any interleaving. `LockDirectory` models the
  script's functions and ties each of them to the machine's steps.
* **Migration lineage**: the revision graph, the walk to an ancestor, and the
  comparison of two releases.
* **Codecs and chains**: the framed backup stream, the audit chain, the import
  ledger, and the source archive with verification, extraction and identity.
* **Order sizes and book checks** of the TESTNET scripts, over the reals.

Eight results are about where the code does *not* reach its aim; each states
exactly when it does.

* The evidence promotion is documented (README.md:202 and :209 of the repository)
  to restore the evidence from before the transaction whenever the ledger lacks
  the bundle, and to finalize the promotion whenever the ledger contains it. After
  any interruption whatever, and any number of interrupted recoveries, a recovery
  that ends does so if and only if the state it finds is `Restorable`: while a
  rollback is pending, there is a backup (the recovery's own test), or the removal
  of the canonical directory leaves what was there before; otherwise, the canonical
  directory is already the right one. The except block, when it ends and could
  remove the canonical directory, restores what the ledger intends if and only if
  there was a backup when it was entered, or nothing to go back to; a bundle that is
  in the ledger already is rolled back all the same. Seven runs from a fresh
  repository show the ways to miss it: killed before the first rename; a recovery
  killed after it moved the backup home; the first rename raising; the same with a
  kill in the except block; the last journal write raising after the ledger append;
  the same with a kill in the except block, after which the old and the promoted
  evidence are both gone and the bundle is refused for good; and a first promotion
  whose rollback fails to remove what it promoted without noticing. The models
  follow the code.
* The release recovery refuses exactly the `Wedged` states; in each of them the
  release from before the update is active. A recovery reaches such a state if and
  only if the backup comes home and what should follow, up to the journal's unlink,
  does not come to its end (`LeavesWedge`).
* A rollback writes no journal. It loses the active tree if and only if all its
  checks pass and its exchange `LosesActive`: it is killed between its two renames,
  or the second one raises and the undo of the first does not work, or the old tree
  is rejected and undoing the exchange stops after one rename. No later call repairs
  that.
* A rollback skips its database check when its own update bound no migration, even
  if one has run since. Right after such an update the database allows the old
  code if and only if it is at the head of the active tree; for any two well-formed
  trees the condition is `DatabaseAllowsExactly`, and `RollbackSkipsTheCheck` is a
  run that misses it. What every run keeps, rollbacks included, is that committed
  migrations carry the release in force to the database's head, each of them marked
  compatible with the release before it.
* Mutual exclusion of the operation lock needs the re-check and the unlink of a
  stale lock to be uninterrupted. An unlink is harmless if and only if nobody is
  in the lock body when it comes; otherwise two processes can both get in.
* An audit event appended to a well-linked chain whose last line is unterminated
  spoils the chain. The append succeeds if and only if the chain is clean and does
  not end inside an event line.
* An extraction that fails is meant to leave its destination alone. An absent
  destination, and any destination of an archive that does not extract, is left
  alone. An empty one is lost if and only if everything works up to its rmdir and the
  rename after that is killed, or raises and the cleanup is killed or cannot make the
  directory again (`LosesDestination`); the next extraction can still use it.
* The probe counts the bids that a sell order would fill, with positive sizes, if
  and only if no bid at or above the price follows a lower one.

## Files

| file | models |
|---|---|
| `Base.dfy` | fates, outcomes and what they mean for a step, repeat-free sequences, the pigeonhole principle |
| `DependencyLocks.dfy` | `scripts/bootstrap_dependency_locks.py` |
| `DeploymentState.dfy` | the deployment directory and `scripts/deployment_transaction_state.py` |
| `Lineage.dfy`, `MigrationGuard.dfy` | `scripts/database_migration_guard.py` |
| `ReleaseUpdate.dfy`, `ReleaseRollback.dfy` | `scripts/transactional_release_update.py` |
| `DeploymentRuns.dfy` | runs of updates, rollbacks, migrations and recoveries |
| `ImportLedger.dfy`, `EvidencePromotion.dfy` | `scripts/external/acceptance_return_promotion.py` |
| `OperationLock.dfy` | `scripts/operation_lock.py` |
| `AuditChain.dfy`, `BackupCrypto.dfy` | `scripts/deployment_audit_chain.py`, `scripts/backup_crypto.py` |
| `OrderSizing.dfy`, `AutoTarget.dfy` | `scripts/external/binance_testnet_acceptance.py` and its hardened variant |
| `PortablePaths.dfy`, `SourcePackage.dfy` | names, safety scan and verification in `scripts/package_release.py` |
| `SourceRelease.dfy`, `SourceExtraction.dfy`, `SourceRoundTrip.dfy` | packaging, `scripts/extract_source_package.py`, `scripts/verify_source_package_identity.py` |

Parameters stand for what lies outside: the cipher, the digest of audit events,
case folding with Unicode normalisation, JSON rendering and parsing, compressed
sizes, probe results, acceptance verdicts, the effect of a migration command and
process liveness. Hashes elsewhere are injective constructors.

## Model

| member | source | states |
|---|---|---|
| `DependencyLocks.LockRoot.RestorePreTransactionState` | scripts/bootstrap_dependency_locks.py:222-249 | whatever happens the committed files stay what they were; if it ends, all targets are exactly those files, absence included; only system calls can make it fail |
| `DependencyLocks.LockRoot.RecoverIncompleteTransaction` | scripts/bootstrap_dependency_locks.py:252-268 | a recovery that ends removes the journal and restores every file; interrupted anywhere it loses nothing; without system errors it always ends |
| `DependencyLocks.LockRoot.PrepareTransaction` | scripts/bootstrap_dependency_locks.py:276-311 | a journal appears only with verified backups of all existing files and staged candidates |
| `DependencyLocks.LockRoot.PromoteAll` | scripts/bootstrap_dependency_locks.py:320-328 | the promoting loop puts every candidate in place, leaves the backups alone, and changes the journal only in its status |
| `DependencyLocks.LockRoot.CommitTransaction` | scripts/bootstrap_dependency_locks.py:320-334 | the journal unlink is the commit: before it the committed files are the old ones, after it all files are the candidates |
| `DependencyLocks.LockRoot.Bootstrap` | scripts/bootstrap_dependency_locks.py:337-399 | both or none for any number of targets, any exception and any crash, with a pending recovery first |
| `DependencyLocks.Run` | scripts/bootstrap_dependency_locks.py:337-399 | any sequence of promotions and recoveries, failing or killed anywhere, refines one atomic write of all files per call; without a journal the files on disk are the committed ones |
| `DeploymentState.Inspect` | scripts/deployment_transaction_state.py:9-26 | the whole journals, and no problem exactly if no journal or lock is a symbolic link, unparsable or, for a journal, no regular file; a journal that is JSON but no object makes it raise |
| `DeploymentState.AssertNoConflicts` | scripts/deployment_transaction_state.py:27-35 | passes exactly if every journal is absent, or whole and allowed, and the lock is not damaged; else names all journals that are not allowed, before it complains of damaged files |
| `DeploymentState.Host.AssertNoConflictingJournals` | scripts/deployment_transaction_state.py:27-35 | on the files that the tools themselves leave: raises exactly when a journal of a kind that is not allowed is present, and names all such kinds |
| `Lineage.MigrationGraph` | scripts/database_migration_guard.py:77-102 | a graph is returned exactly when files are safe, revisions are distinct, one revision is unreferenced and no parent is missing; it maps each declared revision to its declared parent |
| `Lineage.OffChainIsCyclic` | scripts/database_migration_guard.py:77-102 | in an accepted graph every revision that the head does not descend from lies on a cycle of parent links |
| `Lineage.AcceptedIsOneChainIffAcyclic` | scripts/database_migration_guard.py:95-102 | an accepted graph is one chain with every revision exactly once if and only if it has no cycle |
| `Lineage.AcceptedButCyclic` | scripts/database_migration_guard.py:95-102 | a concrete cyclic graph that is accepted |
| `Lineage.PathToAncestorExact` | scripts/database_migration_guard.py:139-150 | on every graph, cyclic or not: a path is returned exactly when the ancestor is reachable, it is the one repeat-free parent chain, and each of the two errors has its exact cause |
| `Lineage.PathsCompose` | scripts/database_migration_guard.py:139-150 | cutting a path at a revision on it gives the two partial paths |
| `Lineage.FindPathToAncestor` | scripts/database_migration_guard.py:139-150 | the loop terminates on every graph and returns that path |
| `Lineage.SchemaHeadExact` | scripts/database_migration_guard.py:105-136 | a tree has a head exactly if its revision files are accepted with that head and its compatibility contract covers them |
| `Lineage.PlanExact` | scripts/database_migration_guard.py:153-166 | a plan exists exactly when both trees are well formed and have one head, or the new head descends from the old one through compatible revisions only |
| `Lineage.PlanMeaning` | scripts/database_migration_guard.py:133-166 | a plan names the two heads and the whole compatible parent chain between them |
| `MigrationGuard.RecoverMigrationTransaction` | scripts/database_migration_guard.py:297-307 | the probed head decides: from-head drops the journal, to-head writes the receipt first, any other head never clears the journal; the receipts keep accounting for the head |
| `MigrationGuard.PlanMigration` | scripts/database_migration_guard.py:323-335 | a migration starts only from a plan, with a valid backup receipt and the database at the plan's from-head; without system errors it starts whenever that is so |
| `MigrationGuard.ExecuteCommand` | scripts/database_migration_guard.py:345-356 | succeeds exactly if the command succeeds and leaves the to-head; otherwise the journal stays; whatever head the command leaves, the receipts keep accounting for it |
| `MigrationGuard.CommitMigration` | scripts/database_migration_guard.py:357-369 | receipt, audit event and journal unlink; the receipts account for the head after any crash in between |
| `MigrationGuard.StartMigration` | scripts/database_migration_guard.py:336-370 | a started migration that returns has its receipt, naming plan, trees and observed head, and one audit event |
| `MigrationGuard.RunGuardedMigration` | scripts/database_migration_guard.py:310-370 | for any command effect and any crash: receipts in start order lead from the initial head to the current one, each names a compatible parent chain, none is dropped or changes its heads, a moved head is either receipted or still journaled, and never is there an update journal beside it; without system errors a planned and backed-up migration is committed exactly if the command succeeds and reaches the candidate's head |
| `MigrationGuard.StartJournal` | scripts/database_migration_guard.py:336-345 | journaling at the current head under a fresh transaction id keeps the account |
| `MigrationGuard.WriteReceipt` | scripts/database_migration_guard.py:282-294 | the receipt of the journaled transaction extends the account to the to-head |
| `MigrationGuard.DropJournal` | scripts/database_migration_guard.py:302-306 | the journal may go when the head is the from-head, or the receipt is there |
| `ReleaseUpdate.SwapInBackup` | scripts/transactional_release_update.py:311-318 | if it ends, the backup is active; however it fails the backup survives |
| `ReleaseUpdate.RestoreBackup` | scripts/transactional_release_update.py:307-321 | the release in force stays the backup through every crash; other trees are untouched; the backup comes home exactly if its rename, and the one that parks an active tree, work |
| `ReleaseUpdate.RecoverIncompleteUpdate` | scripts/transactional_release_update.py:292-329 | a recovery that ends leaves the release in force active; apart from system errors it refuses exactly the wedged states, in which that release is already active; it leaves such a state exactly if it was one, or the backup comes home and the steps from there to the journal unlink do not all come off |
| `ReleaseUpdate.SwapTrees` | scripts/transactional_release_update.py:395-399 | the two renames under the journal never change the release in force, and end with both trees exchanged |
| `ReleaseUpdate.Accept` | scripts/transactional_release_update.py:400-422 | succeeds only for an identified and accepted tree, and then both receipts name the two trees and the audit log gains that event |
| `ReleaseUpdate.Cutover` | scripts/transactional_release_update.py:395-423 | the journal unlink commits: before it the release in force is the old one, after it the candidate is active, the old tree is the backup, and the receipts are written |
| `ReleaseUpdate.Stage` | scripts/transactional_release_update.py:358-384 | a package is staged exactly with a favourable verdict of its checks: it extracts, is identified, and its schema change is authorized by a matching migration receipt |
| `ReleaseUpdate.StageAndCutover` | scripts/transactional_release_update.py:358-438 | without system errors the update commits exactly for a package that passes its checks and its acceptance |
| `ReleaseUpdate.ApplyUpdate` | scripts/transactional_release_update.py:339-452 | from any recoverable state and through any crash the release in force stays, or becomes the accepted candidate together with the removal of the journal; new rollback receipts vouch only for the release that was in force; without system errors a directory that admits an update takes exactly the admissible candidates; killed at the second rename it leaves the old tree as backup only |
| `ReleaseRollback.PlanAllows` | scripts/transactional_release_update.py:495-498 | a plan from the old tree to the new one makes the new schema usable by the old code |
| `ReleaseRollback.DatabaseAllowsExactly` | scripts/transactional_release_update.py:476-498 | for well-formed trees the database allows the old code exactly at the old head, or at the new head if the comparison of the two trees succeeds |
| `ReleaseRollback.UnboundUpdateAllows` | scripts/transactional_release_update.py:476-482 | after an update without a migration the database allows the old code exactly at the head of the active tree, which the rollback does not look at |
| `ReleaseRollback.OlderBackupAllowed` | scripts/transactional_release_update.py:476-482 | a backup from before an update without a migration is still allowed after one further accepted update, at its head |
| `ReleaseRollback.ReadyIsChecked` | scripts/transactional_release_update.py:476-498 | a rollback that passes the check has a database that allows the old code, if its update bound a migration |
| `ReleaseRollback.VerifyDatabaseCompatibility` | scripts/transactional_release_update.py:476-498 | passes only if no migration was bound, or a probe is given and finds the old head, or the new one with a plan leading to it; without system errors it passes whenever that is so |
| `ReleaseRollback.Precheck` | scripts/transactional_release_update.py:503-518 | nothing is moved before journals, backup, receipts and database are checked; without system errors it passes exactly if all are in order |
| `ReleaseRollback.JudgeExchange` | scripts/transactional_release_update.py:529-540 | a rejected rollback puts both trees back, and leaves no active tree exactly if that stops after its first rename; in every ending both trees still exist |
| `ReleaseRollback.Exchange` | scripts/transactional_release_update.py:522-559 | until the rollback is on record both trees exist; then the old tree is active; there is no active tree exactly if the exchange is cut between its renames without an undo, or its revert is |
| `ReleaseRollback.RollbackLastUpdate` | scripts/transactional_release_update.py:500-567 | commits only if everything is ready: verified receipts, no other journal, and an accepted database check; the active tree becomes only the one that the receipt vouches for; a pending update is recovered instead; without system errors it commits whenever all checks pass; with or without a bound migration the release is lost exactly if everything is ready, the probe answers, and the exchange loses the active tree |
| `ReleaseRollback.UpdateThenRollback` | scripts/transactional_release_update.py:339-567 | an update followed by the rollback of its backup is the identity on the release in force; a rejected rollback leaves the candidate in force; with a bound migration the database must allow the old code |
| `ReleaseRollback.UpdateThenRollbackSucceeds` | scripts/transactional_release_update.py:339-567 | without system errors an admissible update succeeds, with or without a migration, and its rollback succeeds exactly if its own acceptance tolerates the old tree and, with a bound migration, a probe is given and finds one of the plan's two heads |
| `DeploymentRuns.Run` | scripts/deployment_transaction_state.py:27-35 | over any sequence of updates, rollbacks, migrations, recoveries and crashes: never two mutation journals, a recoverable release, and receipts that account for the database head; each call changes only what it may |
| `DeploymentRuns.OnlyAcceptedReleases` | scripts/transactional_release_update.py:339-567 | every release that a run puts in force, and every tree that a rollback receipt vouches for, was in force at the start or was accepted by an update over the release then in force |
| `DeploymentRuns.NeverLostWithoutRollback` | scripts/transactional_release_update.py:292-452 | without rollbacks a run never loses the release in force |
| `DeploymentRuns.LostForGood` | scripts/transactional_release_update.py:268-272 | once the active tree is lost no call brings one back |
| `DeploymentRuns.AlwaysServed` | scripts/transactional_release_update.py:476-567 | whatever a run puts in force, by update or by rollback to any backup, the database was at its head at some time |
| `DeploymentRuns.ServedIsCarried` | scripts/database_migration_guard.py:282-370 | then the committed migrations since that time lead from the release's head to the database's head, each through revisions marked compatible with the release before it |
| `DeploymentRuns.RollbackSkipsTheCheck` | scripts/transactional_release_update.py:476-482 | an update without a migration, a guarded migration, and a rollback without a probe all succeed, and leave the old release over a database that does not allow it, for all such trees, of which an instance is given |
| `DeploymentRuns.LoseTree` | scripts/transactional_release_update.py:522-540 | whenever a rollback loses the active tree, recovery finds nothing to do and the next update refuses |
| `DeploymentRuns.KilledRollbackLosesTree` | scripts/transactional_release_update.py:339-567 | from a fresh installation: an update, then a rollback killed between its two renames; no active tree is left, recovery finds nothing to do and the next update refuses |
| `DeploymentRuns.RunFromInstallation` | scripts/transactional_release_update.py:292-567 | the results on runs together, for any run from a fresh installation: legitimate releases, none lost without a rollback, receipts that account for the database, and migrations that carry the release in force to its head |
| `DeploymentRuns.UpdateThenRecoveries` | scripts/transactional_release_update.py:292-452 | after an update that ended in any way, and any number of failed or killed recoveries, one that ends leaves the old release or the accepted candidate active, and so does one that finds no backup |
| `DeploymentRuns.KilledRecoveryWedges` | scripts/transactional_release_update.py:292-452 | from a fresh installation: an update killed at its second rename and a recovery killed right after it renamed the backup home make every later recovery and update refuse, with the old release active |
| `ImportLedger.LoadImportLedger` | scripts/external/acceptance_return_promotion.py:102-133 | no problem is reported exactly for a valid ledger: a hash chain from the zero hash with each bundle at most once |
| `ImportLedger.AppendKeepsValid` | scripts/external/acceptance_return_promotion.py:242-263 | appending a new bundle to a valid ledger keeps it valid, extends it, and adds this bundle only |
| `ImportLedger.SameHeadSameLedger` | scripts/external/acceptance_return_promotion.py:97-99 | two valid ledgers with the same last hash hold the same events |
| `EvidencePromotion.FinalizeCommit` | scripts/external/acceptance_return_promotion.py:219-224 | a promotion that the ledger contains is finalized without touching the canonical directory |
| `EvidencePromotion.RollBack` | scripts/external/acceptance_return_promotion.py:225-239 | if it ends, canonical is the backup, or what its removal left if there was none; if not, either the backup is untouched and the journal pending, or canonical is already restored |
| `EvidencePromotion.RecoverPendingTransaction` | scripts/external/acceptance_return_promotion.py:193-239 | what a recovery that ends leaves as canonical is determined by the state before it; an interrupted one keeps the outlook or leaves it exposed; without system errors it fails only on an invalid journal |
| `EvidencePromotion.SwapIn` | scripts/external/acceptance_return_promotion.py:485-488 | the two renames end with the replacement canonical and the old directory as backup; a failure leaves the old directory in place exactly if it is the first rename of an existing directory, and as backup otherwise |
| `EvidencePromotion.AppendImportLedger` | scripts/external/acceptance_return_promotion.py:242-263 | exactly one event is appended, or the ledger is as before |
| `EvidencePromotion.TryBlock` | scripts/external/acceptance_return_promotion.py:484-498 | at every exception and crash the old directory is the backup or not moved yet, and an imported bundle is canonical |
| `EvidencePromotion.HandleException` | scripts/external/acceptance_return_promotion.py:499-512 | the except block, wherever it stops; if it ends, in a clean transaction whose canonical directory it removes, it restores what the ledger intends exactly if there was a backup or nothing to go back to, and rolls back a bundle that is in the ledger too |
| `EvidencePromotion.Execute` | scripts/external/acceptance_return_promotion.py:484-516 | every ending is accounted for: a promoted one is in the ledger and canonical, an undone one leaves the backup or what the removal left, and an interrupted one, in the except block too, leaves the backup as it was or canonical undone; what each of four accidents leaves, after how many steps |
| `EvidencePromotion.Promote` | scripts/external/acceptance_return_promotion.py:433-517 | the ledger gains the bundle at most once and only if it was valid and did not contain it; without system errors the ending and the canonical directory are determined; a bundle that is not admissible changes nothing; every other ending is accounted for |
| `EvidencePromotion.PromoteThenRecoveries` | scripts/external/acceptance_return_promotion.py:433-517 | an interrupted promotion, followed by any number of recoveries that may be interrupted too, leaves the journal of its transaction or none, and as its backup, while the ledger lacks the bundle, the directory from before or nothing |
| `EvidencePromotion.RecoverInterrupted` | scripts/external/acceptance_return_promotion.py:193-239 | from any such state, first promotions and unclean backups included, a recovery that ends leaves canonical promoted if the ledger contains the bundle and as before otherwise, if and only if the state is restorable; in a clean transaction with a pending rollback and no further fault that is: there is a backup, or there was nothing before |
| `EvidencePromotion.KilledBeforeFirstRename` | scripts/external/acceptance_return_promotion.py:483-486 | a promotion killed before its first rename, then recovered: the evidence is deleted |
| `EvidencePromotion.KilledAfterMovingHome` | scripts/external/acceptance_return_promotion.py:226-235 | a recovery killed after it moved the backup home, then a second one: the evidence is deleted |
| `EvidencePromotion.FirstRenameRaises` | scripts/external/acceptance_return_promotion.py:499-510 | the first rename raises: the except block deletes the evidence |
| `EvidencePromotion.FirstRenameRaisesThenKilled` | scripts/external/acceptance_return_promotion.py:499-503 | the same, killed after the removal: the recovery finds neither the evidence nor a backup |
| `EvidencePromotion.LastJournalWriteRaises` | scripts/external/acceptance_return_promotion.py:494-510 | the journal write after the ledger append raises: canonical is rolled back although the ledger contains the bundle, which is refused from then on |
| `EvidencePromotion.LastJournalWriteRaisesThenKilled` | scripts/external/acceptance_return_promotion.py:501-503 | the same, killed after the removal: the recovery removes the backup, so the old and the promoted evidence are gone, and the bundle is refused from then on |
| `EvidencePromotion.FirstPromotionNotRolledBack` | scripts/external/acceptance_return_promotion.py:225-239 | a first promotion killed after its swap, and a removal that fails unnoticed: evidence that is not in the ledger stays canonical under a recovery that reports success |
| `EvidencePromotion.Run` | scripts/external/acceptance_return_promotion.py:433-517 | over any sequence of promotions and crashes the ledger stays valid and only grows, and no bundle is promoted twice |
| `OperationLock.DeclaredGoneIffGone` | scripts/operation_lock.py:179-200 | on the lock's host and with readable identities an owner is declared gone exactly if that process instance does not live, under reused process ids and reboots; never if it lives |
| `OperationLock.Exclusive` | scripts/operation_lock.py:283-336 | at most one live process instance is in the body, and the lock file carries its identity and token |
| `OperationLock.StepKeepsInv` | scripts/operation_lock.py:88-99 | every step of every process keeps the invariant, except an unlink of a stale lock while somebody is in the body |
| `OperationLock.UnlinkIsSafeIffNobodyIsIn` | scripts/operation_lock.py:230-235 | the unlink after the re-check keeps the invariant if and only if nobody is in the body |
| `OperationLock.RunsAreExclusive` | scripts/operation_lock.py:203-362 | mutual exclusion over all runs of any number of processes and hosts, if no recovery is interrupted between re-check and unlink |
| `OperationLock.InterruptedRecoveryRaces` | scripts/operation_lock.py:230-235 | whenever two processes have both re-checked a stale lock, a continuation puts both into the body |
| `OperationLock.BothRecheck` | scripts/operation_lock.py:203-235 | a run that reaches such a moment |
| `OperationLock.LeaseOnlyGrows` | scripts/operation_lock.py:70-99 | between two moments of a run with the same token the owner is the same and the heartbeat has not gone back |
| `OperationLock.LeaseStep` | scripts/operation_lock.py:82-99 | a lock file that changes under its token has a strictly later heartbeat |
| `OperationLock.LockDirectory.RecoverStaleLock` | scripts/operation_lock.py:203-242 | removes the file exactly if the lock is readable, its owner is declared gone and its lease is over; it performs the machine's four recovery steps |
| `OperationLock.LockDirectory.Enter` | scripts/operation_lock.py:264-287 | succeeds exactly if there is no file, or recovery is asked for and removes it; it performs the machine's acquisition |
| `OperationLock.LockDirectory.RefreshHeartbeat` | scripts/operation_lock.py:70-99 | refuses a lock that is not the caller's; else the heartbeat moves strictly forward and nothing else changes |
| `OperationLock.LockDirectory.Leave` | scripts/operation_lock.py:336-362 | removes the file exactly if it is the caller's, unless only the heartbeat failed; it performs the machine's release |
| `AuditChain.SameHeadSameChain` | scripts/deployment_audit_chain.py:7-23 | two well-linked chains with the same head are equal event by event, whatever their lengths |
| `AuditChain.AuditFile.Verify` | scripts/deployment_audit_chain.py:10-23 | reports no problem exactly on well-linked chains, with their number of events and head |
| `AuditChain.AuditFile.AppendEvent` | scripts/deployment_audit_chain.py:25-40 | succeeds exactly on a clean chain that does not end inside an event line, and then extends it by one linked event |
| `BackupCrypto.RoundTrip` | scripts/backup_crypto.py:23-43 | decrypting an encrypted stream gives the plaintext, for every byte string and anything after the end marker |
| `BackupCrypto.TruncationIsDetected` | scripts/backup_crypto.py:33-43 | every strict prefix of an encrypted stream raises, after writing a prefix of the plaintext |
| `BackupCrypto.EncryptStream` | scripts/backup_crypto.py:23-30 | the loop writes the magic, a frame per chunk and the end marker |
| `BackupCrypto.DecryptStream` | scripts/backup_crypto.py:33-43 | the loop writes and raises what the decoder says, for every input |
| `OrderSizing.TowardsZeroIsNearest` | scripts/external/binance_testnet_acceptance.py:31-36 | rounding down is the nearest multiple on the side of zero |
| `OrderSizing.AwayFromZeroIsNearest` | scripts/external/binance_testnet_acceptance.py:31-36 | rounding up is the nearest multiple on the other side |
| `OrderSizing.EffectiveNotionalCap` | scripts/external/binance_testnet_acceptance.py:39-45 | defined for a positive limit, and then the lesser of it and a positive exchange limit |
| `OrderSizing.BoundedQuantityForPrice` | scripts/external/binance_testnet_acceptance.py:48-90 | a returned quantity is a whole multiple of the step within the quantity limits, worth between minimum notional and cap; it is the greatest within the budget, or one step over it and the least worth the minimum; there is none only if the minimum exceeds the budget or no multiple fits; the raise to the minimum quantity and the last error cannot occur |
| `OrderSizing.QuantityIsGreatest` | scripts/external/binance_testnet_acceptance.py:68-70 | the lesser of the two roundings is the greatest multiple within budget and limit |
| `AutoTarget.FilledIsLesser` | scripts/external/binance_testnet_acceptance.py:178-185 | an order fills all that stands at or above its limit, up to its quantity |
| `AutoTarget.ExecutableBidQuantity` | scripts/external/binance_testnet_acceptance.py:178-185 | with positive sizes the loop counts all bids at or above the price exactly if none of them follows a lower one, as on every book sorted downwards; on any book it counts up to the first lower one |
| `AutoTarget.UnsortedBookIsUndercounted` | scripts/external/binance_testnet_acceptance.py:180-184 | on a concrete unsorted book it misses what an order would fill |
| `AutoTarget.MarketBuyDepthSufficient` | scripts/external/binance_testnet_acceptance_hardened.py:57-75 | true if and only if the valid positive ask sizes sum up to the order |
| `AutoTarget.SpendableNotionalCap` | scripts/external/binance_testnet_acceptance.py:148-157 | defined for positive limit and balance, and then the lesser of the limit and 90 percent of the balance |
| `AutoTarget.PartOfBids` | scripts/external/binance_testnet_acceptance.py:222-227 | accepts exactly the orders of which such a book fills a positive part of at most 70 percent |
| `AutoTarget.AutoProbe` | scripts/external/binance_testnet_acceptance.py:196-233 | a probe is executable within the cap and would fill exactly its executable quantity, strictly between zero and its quantity; without one there is a reason: no usable bid, no size at the rounded price, or a sized quantity beyond what was acquired or that would not fill in part |
| `AutoTarget.Acquire` | scripts/external/binance_testnet_acceptance_hardened.py:106-116 | the acquisition stays within the cap at the ticker price, covers the probe and is covered by the asks; a refusal means that none can be sized or that the sized one fails one of these checks |
| `AutoTarget.SelectAutoTarget` | scripts/external/binance_testnet_acceptance_hardened.py:78-134 | a selected target is within the caller's cap and 90 percent of the free balance, with a covered acquisition and a partial-fill probe; it is of the first symbol that there is no reason to refuse, and without a target there is a reason for every symbol |
| `PortablePaths.PortablePathProblem` | scripts/package_release.py:189-207 | no problem exactly if every segment is portable and no backslash or NUL occurs |
| `PortablePaths.PortableJoin` | scripts/package_release.py:189-207 | a joined path is portable if and only if both parts are |
| `PortablePaths.PortableTarget` | scripts/extract_source_package.py:19-25 | a portable member is extracted to exactly its own path below the root |
| `SourcePackage.ScanZipSafety` | scripts/package_release.py:214-247 | no problem exactly if all members are portable, within the size and ratio limits and not special, the names stay different when folded, and the total is within bound |
| `SourcePackage.CheckAgainstManifest` | scripts/package_release.py:303-347 | no mismatch exactly if the manifest is consistent and describes the members exactly |
| `SourcePackage.VerifyArchive` | scripts/package_release.py:270-348 | nothing is reported exactly for a safe archive without forbidden names whose one manifest describes it |
| `SourcePackage.CleanArchiveMeaning` | scripts/package_release.py:270-348 | a verified archive holds exactly the listed files and the manifest under one prefix, each once, with listed content, size and mode, different when folded, each extracted below the root |
| `SourceRelease.MakeManifest` | scripts/package_release.py:117-177 | raises exactly if a symbolic link passes the filters; else lists every kept file with its digest, size and executable bit |
| `SourceRelease.BuildRelease` | scripts/package_release.py:250-267 | the archive is the kept files under the prefix and the manifest |
| `SourceRelease.KeptMeaning` | scripts/package_release.py:117-137 | the filter keeps exactly the listed paths that pass, each once |
| `SourceRelease.CleanIffPackable` | scripts/package_release.py:250-348 | the archive of a tree is verified if and only if the tree can be packed: non-empty, portable, different when folded, within the limits, nothing forbidden |
| `SourceExtraction.VerifyIdentity` | scripts/verify_source_package_identity.py:65-179 | no problem exactly if the manifest in the tree agrees with the whole tree |
| `SourceExtraction.NextFits` | scripts/extract_source_package.py:60-72 | one round of the loop succeeds exactly if the next member, file or directory, still fits together with those before it, and then makes what they make together |
| `SourceExtraction.WriteMembers` | scripts/extract_source_package.py:60-74 | without system errors all members are written exactly if each has a place below the root and no file stands where another member needs a directory; then the staging directory holds what they make |
| `SourceExtraction.Extract` | scripts/extract_source_package.py:28-97 | succeeds exactly if the destination is absent or empty, the archive extracts (safe, verified before and identified after if it has a manifest) and all steps work, and then the destination holds what the members make; else the destination is as before, except that an empty one is missing exactly if the archive extracts, all steps up to the rmdir work, and the rename and the cleanup fail in one of three ways |
| `SourceExtraction.ExtractRepeatedly` | scripts/extract_source_package.py:28-97 | any number of failed or killed extractions leave a destination that the next one can use, until one succeeds |
| `SourceRoundTrip.ExtractedHolds` | scripts/extract_source_package.py:60-74 | extracting a packed tree gives exactly its files with their executable bits, and the manifest |
| `SourceRoundTrip.ExtractedIdentified` | scripts/verify_source_package_identity.py:65-179 | the extracted tree is identified by its manifest |
| `SourceRoundTrip.PackAndExtract` | scripts/package_release.py:250-348 | build, verify and extract: the archive is verified if and only if the tree can be packed; it comes back only then, as exactly the released files and the manifest, and without system errors always then |

## Left out

- `DeploymentRuns.Run`: covers calls made under the operation lock; `--recover-only` of the release and migration scripts takes no lock, and its interleaving with a running update is not modelled. The state directory of the migration guard is taken to be the parent of the active tree, as in the scripts' own conflict check.
- `ReleaseRollback.RollbackLastUpdate`: does not promise that a rollback keeps an active tree, because it writes no journal; its contract says exactly when there is none, and `LoseTree` and `LostForGood` say what follows.
- `ReleaseUpdate.ApplyUpdate`: an audit event of acceptance can be on record for an update that a later recovery rolls back; the contract speaks of the audit log only for updates that return.
- `EvidencePromotion.Promote`: the directory of quarantined lock candidates is one step without content; a directory that cannot be removed is taken to keep some content.
- `OperationLock.RunsAreExclusive`: assumes an atomic heartbeat refresh that is joined before release, and one start identity per process instance; the heartbeat thread's scheduling and legacy locks of schema 1.0 are not modelled.
- `OperationLock.LockDirectory.RefreshHeartbeat`: epochs are integers, counting representable clock values; the exhausted and non-finite cases of floating point are not modelled.
- `OperationLock.LockDirectory.Leave`: the script's separate error for a lock file that disappeared cannot occur in the code, since reading a missing file raises the general error; the model follows the code.
- `OrderSizing.BoundedQuantityForPrice`: exact reals instead of decimal context rounding; the limits for the greatest quantity and the minimum notional are promised for values that are not negative, and the lemmas `NegativeLimit` and `NegativeMinimum` say what holds of negative ones.
- `AutoTarget.SelectAutoTarget`: exchange calls are answers given in advance; a reason for passing over a symbol is given as a fact about the sized quantity, which a fallback to the minimum notional may make depend on more than the budget.
- `SourcePackage.VerifyArchive`: members whose stored data disagree with their declared size, which the zip reader itself rejects, and manifests whose file list is not a list are not modelled.
- `SourceExtraction.Extract`: of the directories only those of directory members are recorded; a member that is written half-way may leave anything in the staging directory, and a staging directory left by a killed extraction is not looked at again.
- `BackupCrypto.RoundTrip`: the cipher is abstract: decryption undoes encryption and a ciphertext is 16 bytes longer; its secrecy and authenticity are not modelled.
- `AuditChain.AuditFile.AppendEvent`: the append of a line is one step.
- Real file system, subprocess, Git, process and clock calls, and loss of power below the rename level.
- Concurrent unlocked callers of the evidence promotion and of the lock bootstrap.
- Contents of backup and restore-drill receipts, environment fingerprints and the regular expressions that read migration files.
- Journals damaged from outside, beyond the conflict check that rejects them.
- The evidence bundle's transport checks and semantic verification; their verdict is an input.
- The external runner, evidence validators, web application, frontend, migrations themselves, scanners and report generators: input and output plumbing or long lists of single checks.
