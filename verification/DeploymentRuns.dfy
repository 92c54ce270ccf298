/** Runs of the deployment tools: any sequence of calls under the operation
    lock, each of which may fail or be killed at any step. */
module DeploymentRuns {
  import opened Base
  import opened DeploymentState
  import opened MigrationGuard
  import opened ReleaseRollback
  import opened ReleaseUpdate
  import Lineage

  datatype Call =
    | Update(package: Option<Tree>, receipt: Option<nat>, acceptance: Acceptance)
    | RecoverUpdate
    | Rollback(backup: nat, probeGiven: bool, rollbackAcceptance: Acceptance)
    | Migrate(
        candidate: Tree, candidateCommit: Option<string>, backupReceiptValid: bool,
        effect: Lineage.Revision, result: CommandResult)
    | RecoverMigration
    /** The dependency-lock promotion, which may leave its journal behind. */
    | BootstrapLocks(journaled: bool)

  /** What is observed between two calls. */
  datatype Snapshot = Snapshot(
    release: Option<Tree>, receipts: Receipts, rollbacks: Rollbacks, databaseHead: Lineage.Revision)

  ghost function Observe(h: Host): Snapshot
    reads h
  {
    Snapshot(InForce(h), h.migrationReceipts, h.rollbackReceipts, h.databaseHead)
  }

  /** What every call keeps, however it ends. */
  ghost predicate Sane(h: Host, initial: Lineage.Revision)
    reads h
  {
    h.Valid() && Recoverable(h) && h.AtMostOneJournal() && Accounted(h, initial)
  }

  /** How a call may change what is observed. The release in force becomes an
      acceptable candidate, or the tree that a rollback receipt vouches for, or
      is lost by a rollback; otherwise it stays. A lost release is not found
      again. */
  ghost predicate Permitted(before: Snapshot, call: Call, after: Snapshot) {
    && (after.release == before.release || (before.release.Some? && NewRelease(before, call, after.release)))
    && VouchFor(before.rollbacks, after.rollbacks, before.release)
    && (after.databaseHead == before.databaseHead || (call.Migrate? && after.databaseHead == call.effect))
    && (call.Migrate? || call.RecoverMigration? || after.receipts == before.receipts)
    && ReceiptsGrow(before.receipts, after.receipts)
  }

  ghost predicate NewRelease(before: Snapshot, call: Call, release: Option<Tree>)
    requires before.release.Some?
  {
    match call
    case Update(package, receipt, acceptance) =>
      package.Some? && release == package
      && Acceptable(before.receipts, before.release.value, package.value, receipt, acceptance)
    case Rollback(backup, _, _) =>
      release.Some? ==> backup in before.rollbacks && release.value == before.rollbacks[backup].backupTree.tree
    case _ => false
  }

  /** The account does not depend on tokens that no receipt uses. */
  lemma AccountAtAnyToken(
    receipts: Receipts, journal: Option<MigrationJournal>, m: nat, n: nat, head: Lineage.Revision, initial: Lineage.Revision)
    requires Explains(receipts, journal, m, head, initial) && Below(receipts.Keys, m) && Below(receipts.Keys, n)
    requires journal.Some? ==> journal.value.transaction < n
    ensures Explains(receipts, journal, n, head, initial)
  {
    if m <= n {
      ReplayLocal(receipts, receipts, m, n, initial);
    } else {
      ReplayLocal(receipts, receipts, n, m, initial);
    }
  }

  /** The calls that move trees. */
  method ReleaseCall(h: Host, call: Call, ghost initial: Lineage.Revision) returns (o: Outcome<Error>)
    requires Sane(h, initial) && (call.Update? || call.RecoverUpdate? || call.Rollback?)
    modifies h
    ensures Sane(h, initial) && Permitted(old(Observe(h)), call, Observe(h))
  {
    ghost var next := h.nextToken;
    if call.Update? {
      var token;
      o, token := ApplyUpdate(h, call.package, call.receipt, call.acceptance);
    } else if call.Rollback? {
      o := RollbackLastUpdate(h, call.backup, call.probeGiven, call.rollbackAcceptance);
    } else {
      o := RecoverIncompleteUpdate(h);
    }
    AccountAtAnyToken(h.migrationReceipts, h.migrationJournal, next, h.nextToken, h.databaseHead, initial);
  }

  /** The other calls leave trees and rollback receipts alone. */
  method DatabaseCall(h: Host, call: Call, ghost initial: Lineage.Revision) returns (o: Outcome<Error>)
    requires Sane(h, initial) && (call.Migrate? || call.RecoverMigration? || call.BootstrapLocks?)
    modifies h
    ensures Sane(h, initial) && Permitted(old(Observe(h)), call, Observe(h))
  {
    if call.Migrate? {
      var migrated;
      o, migrated := RunGuardedMigration(
        h, call.candidate, call.candidateCommit, call.backupReceiptValid, call.effect, call.result, initial);
    } else if call.RecoverMigration? {
      o := RecoverMigrationTransaction(h, initial);
    } else {
      h.dependencyLocksJournal := call.journaled;
      o := Done;
    }
  }

  ghost predicate IsHistory(history: seq<Snapshot>, calls: seq<Call>) {
    && |history| == |calls| + 1
    && forall i :: 0 <= i < |calls| ==> Permitted(history[i], calls[i], history[i + 1])
  }

  /** Any run keeps what every call keeps: never two mutation journals, a
      release that can be recovered, and receipts that account for the database
      head. Its observations follow one another as permitted. */
  method Run(h: Host, calls: seq<Call>, ghost initial: Lineage.Revision) returns (ghost history: seq<Snapshot>)
    requires Sane(h, initial)
    modifies h
    ensures Sane(h, initial)
    ensures IsHistory(history, calls) && history[0] == old(Observe(h)) && history[|calls|] == Observe(h)
    ensures forall s :: s in history ==> Gapless(s.receipts, initial)
  {
    history := [Observe(h)];
    AccountIsGapless(h.migrationReceipts, h.migrationJournal, h.nextToken, h.databaseHead, initial);
    for i := 0 to |calls|
      invariant Sane(h, initial)
      invariant IsHistory(history, calls[..i]) && history[0] == old(Observe(h)) && history[i] == Observe(h)
      invariant forall s :: s in history ==> Gapless(s.receipts, initial)
    {
      ghost var before := history;
      var call := calls[i];
      if call.Update? || call.RecoverUpdate? || call.Rollback? {
        var o := ReleaseCall(h, call, initial);
      } else {
        var o := DatabaseCall(h, call, initial);
      }
      AccountIsGapless(h.migrationReceipts, h.migrationJournal, h.nextToken, h.databaseHead, initial);
      history := history + [Observe(h)];
      HistoryGrows(before, calls[..i], call, Observe(h));
      assert calls[..i + 1] == calls[..i] + [call];
    }
    assert calls[..|calls|] == calls;
  }

  lemma HistoryGrows(history: seq<Snapshot>, calls: seq<Call>, call: Call, next: Snapshot)
    requires IsHistory(history, calls) && Permitted(history[|calls|], call, next)
    ensures IsHistory(history + [next], calls + [call])
  {
    var h, c := history + [next], calls + [call];
    forall i | 0 <= i < |c| ensures Permitted(h[i], c[i], h[i + 1]) {
      if i < |calls| {
        assert Permitted(history[i], calls[i], history[i + 1]);
      }
    }
  }

  /** An update call of the run brought the tree in, accepted over the release
      that was then in force. */
  ghost predicate BroughtIn(history: seq<Snapshot>, calls: seq<Call>, tree: Tree, i: nat)
    requires i < |calls| && |history| == |calls| + 1
  {
    && calls[i].Update? && calls[i].package == Some(tree) && history[i].release.Some?
    && Acceptable(history[i].receipts, history[i].release.value, tree, calls[i].receipt, calls[i].acceptance)
  }

  /** The tree was in force at the start of the run, or an update brought it in. */
  ghost predicate Legitimate(history: seq<Snapshot>, calls: seq<Call>, tree: Tree)
    requires |history| == |calls| + 1
  {
    history[0].release == Some(tree) || exists i :: 0 <= i < |calls| && BroughtIn(history, calls, tree, i)
  }

  /** Whatever a run that starts without rollback receipts puts in force, or
      vouches for, was in force at its start or was accepted by an update. */
  lemma {:induction false} OnlyAcceptedReleases(history: seq<Snapshot>, calls: seq<Call>, n: nat)
    requires IsHistory(history, calls) && n <= |calls| && history[0].rollbacks == map[]
    ensures history[n].release.Some? ==> Legitimate(history, calls, history[n].release.value)
    ensures forall t :: t in history[n].rollbacks ==> Legitimate(history, calls, history[n].rollbacks[t].backupTree.tree)
  {
    if n > 0 {
      OnlyAcceptedReleases(history, calls, n - 1);
      var before, call, after := history[n - 1], calls[n - 1], history[n];
      assert Permitted(before, call, after);
      if after.release.Some? && after.release != before.release && call.Update? {
        assert BroughtIn(history, calls, after.release.value, n - 1);
      }
    }
  }

  /** A run without rollbacks never loses the release. */
  lemma {:induction false} NeverLostWithoutRollback(history: seq<Snapshot>, calls: seq<Call>, n: nat)
    requires IsHistory(history, calls) && n <= |calls| && history[0].release.Some?
    requires forall i :: 0 <= i < n ==> !calls[i].Rollback?
    ensures history[n].release.Some?
  {
    if n > 0 {
      NeverLostWithoutRollback(history, calls, n - 1);
      assert Permitted(history[n - 1], calls[n - 1], history[n]);
    }
  }

  /** A lost release stays lost: no call of the tools brings any tree back. */
  lemma {:induction false} LostForGood(history: seq<Snapshot>, calls: seq<Call>, m: nat, n: nat)
    requires IsHistory(history, calls) && m <= n <= |calls| && history[m].release.None?
    ensures history[n].release.None?
  {
    if m < n {
      LostForGood(history, calls, m, n - 1);
      assert Permitted(history[n - 1], calls[n - 1], history[n]);
    }
  }

  // ---- the code in force and the database ----

  /** Every receipt continues from the head that the earlier ones led to. */
  ghost predicate Gapless(receipts: Receipts, initial: Lineage.Revision) {
    forall t :: t in receipts ==> Replay(receipts, t + 1, initial) == Some(receipts[t].toHead)
  }

  lemma {:induction false} EarlierReplay(receipts: Receipts, m: nat, n: nat, initial: Lineage.Revision)
    requires m <= n && Replay(receipts, n, initial).Some?
    ensures Replay(receipts, m, initial).Some?
    decreases n
  {
    if m < n {
      EarlierReplay(receipts, m, n - 1, initial);
    }
  }

  lemma AccountIsGapless(
    receipts: Receipts, journal: Option<MigrationJournal>, next: nat, head: Lineage.Revision, initial: Lineage.Revision)
    requires Explains(receipts, journal, next, head, initial) && Below(receipts.Keys, next)
    ensures Gapless(receipts, initial)
  {
    var last := if journal.Some? then journal.value.transaction else next;
    forall t | t in receipts ensures Replay(receipts, t + 1, initial) == Some(receipts[t].toHead) {
      if t < last {
        EarlierReplay(receipts, t + 1, last, initial);
      }
    }
  }

  /** The database was at the head of this tree when n tokens had been handed out. */
  ghost predicate ServedAt(receipts: Receipts, n: nat, tree: Tree, initial: Lineage.Revision) {
    AlembicHead(tree).Ok? && Replay(receipts, n, initial) == Some(AlembicHead(tree).value)
  }

  ghost predicate Served(receipts: Receipts, tree: Tree, initial: Lineage.Revision) {
    exists n: nat :: ServedAt(receipts, n, tree, initial)
  }

  /** Growing receipts keep the heads that were visited. */
  lemma {:induction false} VisitedStays(before: Receipts, after: Receipts, n: nat, initial: Lineage.Revision) returns (m: nat)
    requires ReceiptsGrow(before, after)
    ensures Replay(after, m, initial) == Replay(before, n, initial)
    decreases n
  {
    m := n;
    if t :| t in after && t !in before && t < n {
      m := VisitedStays(before, after, n - 1, initial);
    } else {
      ReplayLocal(after, before, n, n, initial);
    }
  }

  lemma ServedStays(before: Receipts, after: Receipts, tree: Tree, initial: Lineage.Revision)
    requires ReceiptsGrow(before, after) && Served(before, tree, initial)
    ensures Served(after, tree, initial)
  {
    var n: nat :| ServedAt(before, n, tree, initial);
    var m := VisitedStays(before, after, n, initial);
    assert ServedAt(after, m, tree, initial);
  }

  /** An acceptable update of a served release brings in a served one. */
  lemma AcceptedIsServed(
    receipts: Receipts, before: Tree, package: Tree, receipt: Option<nat>, acceptance: Acceptance, initial: Lineage.Revision)
    requires Acceptable(receipts, before, package, receipt, acceptance)
    requires Gapless(receipts, initial) && Served(receipts, before, initial)
    ensures Served(receipts, package, initial)
  {
    var plan := Lineage.CompareReleaseMigrations(before.schema, package.schema).value;
    PlannedHeads(before, package, plan);
    Lineage.PlanMeaning(before.schema, package.schema, plan);
    var n: nat :| ServedAt(receipts, n, before, initial);
    var m := if receipt.Some? then receipt.value + 1 else n;
    assert ServedAt(receipts, m, package, initial);
  }

  /** The release and every tree that a rollback receipt vouches for were served
      by the database at some time. */
  ghost predicate AllServed(s: Snapshot, initial: Lineage.Revision) {
    && (s.release.Some? ==> Served(s.receipts, s.release.value, initial))
    && (forall t :: t in s.rollbacks ==> Served(s.receipts, s.rollbacks[t].backupTree.tree, initial))
  }

  lemma ServedStep(before: Snapshot, call: Call, after: Snapshot, initial: Lineage.Revision)
    requires Permitted(before, call, after) && Gapless(before.receipts, initial) && AllServed(before, initial)
    ensures AllServed(after, initial)
  {
    forall tree | Served(before.receipts, tree, initial) ensures Served(after.receipts, tree, initial) {
      ServedStays(before.receipts, after.receipts, tree, initial);
    }
    if after.release.Some? && after.release != before.release && call.Update? {
      AcceptedIsServed(before.receipts, before.release.value, after.release.value, call.receipt, call.acceptance, initial);
    }
  }

  /** A run keeps this. */
  lemma {:induction false} AlwaysServed(history: seq<Snapshot>, calls: seq<Call>, n: nat, initial: Lineage.Revision)
    requires IsHistory(history, calls) && n <= |calls| && AllServed(history[0], initial)
    requires forall s :: s in history ==> Gapless(s.receipts, initial)
    ensures AllServed(history[n], initial)
  {
    if n > 0 {
      AlwaysServed(history, calls, n - 1, initial);
      assert Permitted(history[n - 1], calls[n - 1], history[n]) && history[n - 1] in history;
      ServedStep(history[n - 1], calls[n - 1], history[n], initial);
    }
  }

  /** Following the receipts of the tokens from m up to n, from one head on. */
  ghost function Continue(receipts: Receipts, m: nat, n: nat, head: Lineage.Revision): Option<Lineage.Revision>
    requires m <= n
    decreases n
  {
    if n == m then Some(head)
    else
      var last := Continue(receipts, m, n - 1, head);
      if n - 1 !in receipts then last
      else if last == Some(receipts[n - 1].fromHead) then Some(receipts[n - 1].toHead)
      else None
  }

  lemma {:induction false} ReplayContinues(receipts: Receipts, m: nat, n: nat, initial: Lineage.Revision)
    requires m <= n && Replay(receipts, m, initial).Some?
    ensures Replay(receipts, n, initial) == Continue(receipts, m, n, Replay(receipts, m, initial).value)
    decreases n
  {
    if m < n {
      ReplayContinues(receipts, m, n - 1, initial);
    }
  }

  /** Committed migrations lead from the head of the tree to the given one, and
      each consists of revisions marked compatible with the release before it. */
  ghost predicate Carries(receipts: Receipts, next: nat, tree: Tree, head: Lineage.Revision) {
    && AlembicHead(tree).Ok?
    && (forall t :: t in receipts ==> Planned(receipts[t]))
    && exists n: nat :: n <= next && Continue(receipts, n, next, AlembicHead(tree).value) == Some(head)
  }

  lemma ServedIsCarried(receipts: Receipts, next: nat, tree: Tree, head: Lineage.Revision, initial: Lineage.Revision)
    requires Explains(receipts, None, next, head, initial) && Below(receipts.Keys, next) && Served(receipts, tree, initial)
    ensures Carries(receipts, next, tree, head)
  {
    var n: nat :| ServedAt(receipts, n, tree, initial);
    if n <= next {
      ReplayContinues(receipts, n, next, initial);
    } else {
      ReplayLocal(receipts, receipts, next, n, initial);
      assert Continue(receipts, next, next, AlembicHead(tree).value) == Some(head);
    }
  }

  /** A run from a fresh installation. */
  method RunFromInstallation(active: Tree, databaseHead: Lineage.Revision, fate: nat -> Fate, calls: seq<Call>)
    returns (h: Host, ghost history: seq<Snapshot>)
    ensures Sane(h, databaseHead) && IsHistory(history, calls)
    ensures history[0].release == Some(active) && history[|calls|] == Observe(h)
    ensures InForce(h).Some? ==> Legitimate(history, calls, InForce(h).value)
    ensures (forall call :: call in calls ==> !call.Rollback?) ==> InForce(h).Some?
    ensures h.migrationJournal.None? ==> Replay(h.migrationReceipts, h.nextToken, databaseHead) == Some(h.databaseHead)
    // rollbacks included, the code in force can be carried to the database
    ensures h.migrationJournal.None? && AlembicHead(active) == Ok(databaseHead) && InForce(h).Some? ==>
              Carries(h.migrationReceipts, h.nextToken, InForce(h).value, h.databaseHead)
  {
    h := new Host(active, databaseHead, fate);
    history := Run(h, calls, databaseHead);
    OnlyAcceptedReleases(history, calls, |calls|);
    if AlembicHead(active) == Ok(databaseHead) {
      assert ServedAt(map[], 0, active, databaseHead);
      AlwaysServed(history, calls, |calls|, databaseHead);
      if h.migrationJournal.None? && InForce(h).Some? {
        ServedIsCarried(h.migrationReceipts, h.nextToken, InForce(h).value, h.databaseHead, databaseHead);
      }
    }
    if forall call :: call in calls ==> !call.Rollback? {
      NeverLostWithoutRollback(history, calls, |calls|);
    }
  }

  /** An update without a migration of a fresh installation, in any environment: what
      it leaves if it works, and if it is killed at the rename that would promote
      the candidate. */
  method UpdateInstallation(active: Tree, head: Lineage.Revision, package: Tree, acceptance: Acceptance, fate: nat -> Fate)
    returns (h: Host, updated: Outcome<Error>, token: nat)
    requires Admissible(map[], Some(active), Some(package), None, acceptance)
    ensures fresh(h) && h.fate == fate && h.Valid() && Recoverable(h) && h.AtMostOneJournal()
    ensures h.migrationReceipts == map[] && h.migrationJournal.None? && h.databaseHead == head && !h.dependencyLocksJournal
    ensures WorksUntil(fate, 0, UPDATE_STEPS) ==>
              && updated.Done? && h.clock == UPDATE_STEPS
              && Replaced(h, map[], token, Some(active), Some(package), None, acceptance)
    ensures KilledAtPromotion(fate, 0, 5) ==>
              updated.Crashed? && h.clock == 6 && MovedAway(h) && InForce(h) == Some(active)
  {
    h := new Host(active, head, fate);
    assert Ready(h) && InForce(h) == Some(active);
    updated, token := ApplyUpdate(h, Some(package), None, acceptance);
  }

  /** An update that works can be rolled back without a probe. */
  method InstallAndUpdate(a: Tree, b: Tree, head: Lineage.Revision, acceptance: Acceptance, fate: nat -> Fate)
    returns (h: Host, token: nat)
    requires Admissible(map[], Some(a), Some(b), None, acceptance) && WorksUntil(fate, 0, UPDATE_STEPS)
    ensures fresh(h) && h.fate == fate && h.clock == UPDATE_STEPS
    ensures Sane(h, head) && h.JournalKinds() == {} && h.databaseHead == head
    ensures CutOver(h.trees, h.updateJournal, token, a, b) && RollbackReady(h, token, false) && Unbound(h, token)
  {
    var updated;
    h, updated, token := UpdateInstallation(a, head, b, acceptance, fate);
    UpdatedIsReady(h, token, Some(a), Some(b), None, acceptance, false);
    ReceiptIsBound(map[], a, b, None);
    AccountAtAnyToken(map[], None, 0, h.nextToken, head, head);
  }

  /** From a fresh installation: an update, then a rollback that is killed between its
      two renames. There is no active tree, and neither a recovery nor any update
      brings one back. */
  method KilledRollbackLosesTree(
    a: Tree, b: Tree, head: Lineage.Revision, acceptance: Acceptance, rollbackAcceptance: Acceptance, next: Option<Tree>)
    returns (h: Host, killed: Outcome<Error>, recovery: Outcome<Error>, update: Outcome<Error>)
    requires Admissible(map[], Some(a), Some(b), None, acceptance)
    ensures h.fate == TwoDeaths(13, 13) && killed.Crashed? && recovery.Done? && update == Raised(ActiveDirectoryUnsafe)
    ensures InForce(h).None?
  {
    var token;
    h, token := InstallAndUpdate(a, b, head, acceptance, TwoDeaths(13, 13));
    assert KilledBetween(h.fate, h.clock);
    killed, recovery, update := LoseTree(h, token, false, rollbackAcceptance, next, None);
  }

  /** A failure that is not recovered, because a rollback writes no journal: whenever
      a rollback loses the active tree, recovery finds nothing to do and the next
      update refuses to start. */
  method LoseTree(
    h: Host, backup: nat, probeGiven: bool, acceptance: Acceptance, package: Option<Tree>, receipt: Option<nat>)
    returns (rolledBack: Outcome<Error>, recovery: Outcome<Error>, update: Outcome<Error>)
    requires h.Valid() && Recoverable(h) && h.AtMostOneJournal() && h.updateJournal.None? && RollbackReady(h, backup, probeGiven)
    requires Unbound(h, backup) || h.fate(h.clock) == Works
    requires LosesActive(h.fate, RenameAt(Unbound(h, backup), h.clock), Rejected(h.trees[Backup(backup)], acceptance))
    modifies h`clock, h`nextToken, h`trees, h`updateJournal, h`acceptances, h`rollbackReceipts, h`rollbackAcceptances, h`audit
    ensures !rolledBack.Done? && recovery.Done? && update == Raised(ActiveDirectoryUnsafe) && InForce(h).None?
    ensures KilledBetween(h.fate, old(RenameAt(Unbound(h, backup), h.clock))) ==> rolledBack.Crashed?
  {
    rolledBack := RollbackLastUpdate(h, backup, probeGiven, acceptance);
    recovery := RecoverIncompleteUpdate(h);
    update := UpdateWithoutActive(h, package, receipt);
  }

  /** The plan from b to c, when a and b have the same head. */
  lemma HeadsOfTheRun(a: Tree, b: Tree, c: Tree, head: Lineage.Revision)
    requires Admissible(map[], Some(a), Some(b), None, NoCommand) && AlembicHead(a) == Ok(head)
    requires RequiresMigration(b, c)
    ensures var planned := PlanFor(map[Active := b], c);
            && Feasible(planned, true, head) && PlanHolds(planned.value, c)
            && AlembicHead(c) == Ok(planned.value.toHead) && !DatabaseAllows(planned.value.toHead, b, a)
  {
    var plan := Lineage.CompareReleaseMigrations(b.schema, c.schema).value;
    Lineage.PlanMeaning(b.schema, c.schema, plan);
    PlannedHeads(b, c, plan);
    UnboundUpdateAllows(map[], a, b, NoCommand, head);
    UnboundUpdateAllows(map[], a, b, NoCommand, plan.toHead);
    assert DatabaseAllows(head, b, a);
  }

  ghost predicate RequiresMigration(active: Tree, candidate: Tree) {
    var planned := Lineage.CompareReleaseMigrations(active.schema, candidate.schema);
    planned.Ok? && planned.value.required
  }

  /** The database check of a rollback is skipped when the update bound no
      migration, even if one has run since: the old release is put back although
      the database is at neither tree's head. What still holds is that the
      migrations carry the old release to that head. */
  method RollbackSkipsTheCheck(a: Tree, b: Tree, c: Tree, head: Lineage.Revision)
    returns (h: Host, migrated: Option<MigrationReceipt>, rolledBack: Outcome<Error>)
    requires Admissible(map[], Some(a), Some(b), None, NoCommand) && AlembicHead(a) == Ok(head)
    requires RequiresMigration(b, c)
    ensures migrated.Some? && rolledBack.Done? && InForce(h) == Some(a)
    ensures AlembicHead(c) == Ok(h.databaseHead) && !DatabaseAllows(h.databaseHead, b, a)
  {
    var token;
    h, token := InstallAndUpdate(a, b, head, NoCommand, _ => Works);
    HeadsOfTheRun(a, b, c, head);
    migrated, rolledBack := MigrateThenRollback(h, token, PlanFor(map[Active := b], c), c, head);
  }

  /** Trees for which the run exists: a schema of one revision and one that adds a
      compatible second. */
  lemma SuchTrees() returns (a: Tree, b: Tree, c: Tree)
    ensures Admissible(map[], Some(a), Some(b), None, NoCommand) && AlembicHead(a) == Ok("a")
    ensures RequiresMigration(b, c)
  {
    var one, two := OneRevision(), TwoRevisions();
    a, b, c := Tree("a", None, one, true, true), Tree("b", None, one, true, true), Tree("c", None, two, true, true);
    OneHasHead();
    TwoFollowsOne();
  }

  function OneRevision(): Lineage.Schema {
    Lineage.Schema(map["a" := None], map["a" := Lineage.Entry(None, true, false, true)])
  }

  function TwoRevisions(): Lineage.Schema {
    var first, second := Lineage.Entry(None, true, false, true), Lineage.Entry(Some("a"), true, false, true);
    Lineage.Schema(map["a" := None, "b" := Some("a")], map["a" := first, "b" := second])
  }

  lemma OneHasHead()
    ensures Lineage.SchemaHead(OneRevision()) == Ok("a")
  {
    OneHead(OneRevision(), "a");
  }

  lemma TwoHasHead()
    ensures Lineage.SchemaHead(TwoRevisions()) == Ok("b")
  {
    var g := TwoRevisions().revisions;
    assert g.Keys == {"a", "b"} && g["a"] == None && g["b"] == Some("a");
    TwoIsCovered();
    OneHead(TwoRevisions(), "b");
  }

  lemma TwoIsCovered()
    ensures Lineage.ContractCovers(TwoRevisions())
  {
    var s := TwoRevisions();
    assert s.revisions.Keys == {"a", "b"} && s.contract.Keys == {"a", "b"};
  }

  lemma TwoFollowsOne()
    ensures var planned := Lineage.CompareReleaseMigrations(OneRevision(), TwoRevisions()); planned.Ok? && planned.value.required
  {
    OneHasHead();
    TwoHasHead();
    var s := TwoRevisions();
    assert "a" in s.revisions && "b" in s.revisions && s.revisions["b"] == Some("a");
    OneStepPlan("a", "b", s);
  }

  /** A plan over one compatible revision. */
  lemma OneStepPlan(before: Lineage.Revision, after: Lineage.Revision, s: Lineage.Schema)
    requires before != after && before in s.revisions && after in s.revisions && s.revisions[after] == Some(before)
    requires after in s.contract && s.contract[after].previousReleaseCompatible
    ensures var planned := Lineage.PlanBetween(Ok(before), Ok(after), s); planned.Ok? && planned.value.required
  {
    assert Lineage.IsPath(s.revisions, before, after, [after]) && Lineage.AllCompatible(s, [after]);
    Lineage.PlanBetweenExact(Ok(before), Ok(after), s);
  }

  lemma OneHead(s: Lineage.Schema, head: Lineage.Revision)
    requires head in s.revisions && Lineage.ParentClosed(s.revisions) && Lineage.ContractCovers(s)
    requires forall r :: r in s.revisions && r != head ==> exists q :: q in s.revisions && s.revisions[q] == Some(r)
    requires forall q :: q in s.revisions ==> s.revisions[q] != Some(head)
    ensures Lineage.SchemaHead(s) == Ok(head)
  {
    Lineage.SchemaHeadExact(s, head);
  }

  /** A migration, then a rollback that does not look at the database. */
  method MigrateThenRollback(
    h: Host, token: nat, planned: Result<Lineage.Plan, Error>, candidate: Tree, ghost initial: Lineage.Revision)
    returns (migrated: Option<MigrationReceipt>, rolledBack: Outcome<Error>)
    requires Sane(h, initial) && AllWork(h.fate, h.clock) && h.JournalKinds() == {} && h.updateJournal.None?
    requires RollbackReady(h, token, false) && Unbound(h, token)
    requires Feasible(planned, true, h.databaseHead) && PlanHolds(planned.value, candidate)
    modifies h
    ensures migrated.Some? && rolledBack.Done? && h.databaseHead == planned.value.toHead
    ensures InForce(h) == Some(old(h.trees)[Backup(token)])
  {
    migrated := MigrateQuietly(h, planned, candidate, initial);
    rolledBack := RollbackLastUpdate(h, token, false, NoCommand);
  }

  /** A planned migration without system errors. */
  method MigrateQuietly(h: Host, planned: Result<Lineage.Plan, Error>, candidate: Tree, ghost initial: Lineage.Revision)
    returns (migrated: Option<MigrationReceipt>)
    requires Sane(h, initial) && AllWork(h.fate, h.clock) && h.JournalKinds() == {}
    requires Feasible(planned, true, h.databaseHead) && PlanHolds(planned.value, candidate) && Active in h.trees
    modifies h`clock, h`nextToken, h`migrationJournal, h`migrationReceipts, h`databaseHead, h`audit
    ensures Sane(h, initial) && AllWork(h.fate, h.clock) && h.JournalKinds() == {}
    ensures migrated.Some? && h.databaseHead == planned.value.toHead
  {
    var o;
    o, migrated := MigrateAsPlanned(h, planned, candidate, None, true, planned.value.toHead, Succeeded, initial);
    assert h.Journaled(DependencyLocks) == old(h.Journaled(DependencyLocks));
  }

  /** Recoveries that may be killed or fail, until the last one. */
  method Recoveries(h: Host, attempts: nat) returns (last: Outcome<Error>)
    requires h.Valid() && Recoverable(h)
    modifies h`clock, h`nextToken, h`trees, h`updateJournal, h`rollbackReceipts
    ensures h.Valid() && Recoverable(h) && InForce(h) == old(InForce(h))
    ensures last.Done? ==> h.updateJournal.None?
    ensures last == Raised(UpdateBackupMissing) ==> Wedged(h) && Active in h.trees && InForce(h) == Some(h.trees[Active])
  {
    for i := 0 to attempts
      invariant h.Valid() && Recoverable(h) && InForce(h) == old(InForce(h))
    {
      var attempt := RecoverIncompleteUpdate(h);
    }
    last := RecoverIncompleteUpdate(h);
  }

  /** The release from before the update, or its accepted candidate. */
  ghost predicate OldOrAccepted(
    receipts: Receipts, before: Tree, package: Option<Tree>, receipt: Option<nat>, acceptance: Acceptance, now: Option<Tree>)
  {
    || now == Some(before)
    || (package.Some? && now == package && Acceptable(receipts, before, package.value, receipt, acceptance))
  }

  /** However an update ends, and however many recoveries are then killed or
      fail: one that ends leaves the tree from before the update active, or the
      candidate if it was committed, and so does one that finds no backup. */
  method UpdateThenRecoveries(h: Host, package: Option<Tree>, receipt: Option<nat>, acceptance: Acceptance, attempts: nat)
    returns (last: Outcome<Error>)
    requires h.Valid() && Recoverable(h) && h.AtMostOneJournal() && h.updateJournal.None? && Active in h.trees
    modifies h
    ensures h.Valid() && Recoverable(h)
    ensures OldOrAccepted(h.migrationReceipts, old(h.trees)[Active], package, receipt, acceptance, InForce(h))
    ensures last.Done? ==> h.updateJournal.None?
    ensures last.Done? || last == Raised(UpdateBackupMissing) ==> Active in h.trees && InForce(h) == Some(h.trees[Active])
  {
    var updated, token := ApplyUpdate(h, package, receipt, acceptance);
    assert OldOrAccepted(h.migrationReceipts, old(h.trees)[Active], package, receipt, acceptance, InForce(h));
    last := Recoveries(h, attempts);
  }

  /** An environment in which every step works but two. */
  function TwoDeaths(first: nat, second: nat): nat -> Fate {
    t => if t == first || t == second then Dies else Works
  }

  /** An update of a fresh installation killed at the rename that would promote the
      candidate, then a recovery killed right after it renamed the backup home. */
  method KilledTwice(active: Tree, databaseHead: Lineage.Revision, package: Tree, acceptance: Acceptance)
    returns (h: Host, killed: Outcome<Error>, first: Outcome<Error>)
    requires Admissible(map[], Some(active), Some(package), None, acceptance)
    ensures fresh(h) && h.fate == TwoDeaths(5, 7) && killed.Crashed? && first.Crashed?
    ensures h.Valid() && Recoverable(h) && h.AtMostOneJournal() && Wedged(h) && InForce(h) == Some(active)
  {
    var token;
    assert KilledAtPromotion(TwoDeaths(5, 7), 0, 5);
    h, killed, token := UpdateInstallation(active, databaseHead, package, acceptance, TwoDeaths(5, 7));
    first := RecoverIncompleteUpdate(h);
  }

  /** The wedge is reachable: after these two kills every later recovery and
      update refuses, while the old release is active. */
  method KilledRecoveryWedges(
    active: Tree, databaseHead: Lineage.Revision, package: Tree, acceptance: Acceptance, attempts: nat, next: Option<Tree>)
    returns (h: Host, killed: Outcome<Error>, first: Outcome<Error>, last: Outcome<Error>, update: Outcome<Error>)
    requires Admissible(map[], Some(active), Some(package), None, acceptance)
    ensures h.fate == TwoDeaths(5, 7) && killed.Crashed? && first.Crashed?
    ensures last == Raised(UpdateBackupMissing) && !update.Done?
    ensures Wedged(h) && Active in h.trees && h.trees[Active] == active
  {
    h, killed, first := KilledTwice(active, databaseHead, package, acceptance);
    last, update := StayWedged(h, attempts, next, acceptance);
  }

  /** Any number of recoveries, and then an update, find and leave a wedge. */
  method StayWedged(h: Host, attempts: nat, package: Option<Tree>, acceptance: Acceptance)
    returns (last: Outcome<Error>, update: Outcome<Error>)
    requires h.Valid() && Recoverable(h) && h.AtMostOneJournal() && Wedged(h)
    modifies h
    ensures last == Raised(UpdateBackupMissing) && !update.Done?
    ensures Wedged(h) && Active in h.trees && Some(h.trees[Active]) == old(InForce(h))
  {
    for i := 0 to attempts
      invariant h.Valid() && Recoverable(h) && h.AtMostOneJournal() && Wedged(h) && InForce(h) == old(InForce(h))
    {
      var attempt := RecoverIncompleteUpdate(h);
    }
    last, update := RefusedWhenWedged(h, package, None, acceptance);
  }

  /** A wedge refuses both a recovery and an update, and stays. */
  method RefusedWhenWedged(h: Host, package: Option<Tree>, receipt: Option<nat>, acceptance: Acceptance)
    returns (recovery: Outcome<Error>, update: Outcome<Error>)
    requires h.Valid() && Recoverable(h) && h.AtMostOneJournal() && Wedged(h)
    modifies h
    ensures recovery == Raised(UpdateBackupMissing) && !update.Done? && Wedged(h) && h.trees == old(h.trees)
  {
    recovery := RecoverIncompleteUpdate(h);
    var token;
    update, token := ApplyUpdate(h, package, receipt, acceptance);
  }
}
