/** The guarded database migration: the probed database head decides what an
    interrupted transaction did (scripts/database_migration_guard.py). */
module MigrationGuard {
  import opened Base
  import opened DeploymentState
  import Lineage

  type Receipts = map<nat, MigrationReceipt>

  /** Following the receipts of the first n tokens, in the order in which the
      transactions started, from one head to the next. None: a gap. */
  ghost function Replay(receipts: Receipts, n: nat, initial: Lineage.Revision): Option<Lineage.Revision>
    decreases n
  {
    if n == 0 then Some(initial)
    else
      var head := Replay(receipts, n - 1, initial);
      if n - 1 !in receipts then head
      else if head == Some(receipts[n - 1].fromHead) then Some(receipts[n - 1].toHead)
      else None
  }

  ghost predicate SameHeads(r: MigrationReceipt, q: MigrationReceipt) {
    r.fromHead == q.fromHead && r.toHead == q.toHead
  }

  /** Receipts are never dropped, keep their heads, and new ones come last. */
  ghost predicate ReceiptsGrow(before: Receipts, after: Receipts) {
    && (forall t :: t in before ==> t in after && SameHeads(before[t], after[t]))
    && (forall s, t :: s in before && t in after && t !in before ==> s < t)
  }

  lemma {:induction false} ReplayLocal(a: Receipts, b: Receipts, m: nat, n: nat, initial: Lineage.Revision)
    requires m <= n
    requires forall t :: t < m ==> (t in a <==> t in b) && (t in a && t in b ==> SameHeads(a[t], b[t]))
    requires forall t :: m <= t < n ==> t !in b
    ensures Replay(a, m, initial) == Replay(b, n, initial)
    decreases n
  {
    if m < n {
      ReplayLocal(a, b, m, n - 1, initial);
    } else if n > 0 {
      ReplayLocal(a, b, m - 1, n - 1, initial);
    }
  }

  /** The receipt names the parent chain in its candidate tree between its two
      heads, all of it marked compatible with the previous release. */
  ghost predicate Planned(r: MigrationReceipt) {
    var schema := r.candidateTree.tree.schema;
    Lineage.IsPath(schema.revisions, r.fromHead, r.toHead, r.pending) && Lineage.AllCompatible(schema, r.pending)
  }

  ghost predicate AllPlanned(receipts: Receipts, journal: Option<MigrationJournal>) {
    && (forall t {:trigger Planned(receipts[t])} :: t in receipts ==> Planned(receipts[t]))
    && (journal.Some? ==> Planned(ReceiptOf(journal.value, journal.value.toHead)))
  }

  /** Receipts account for the head: without a journal they lead from the
      initial head to the current one; with a journal they lead to its
      from-head, and its own receipt, if already written, to the current head.
      All of them, and the journal, are planned. */
  ghost predicate Explains(
    receipts: Receipts,
    journal: Option<MigrationJournal>,
    next: nat,
    head: Lineage.Revision,
    initial: Lineage.Revision)
  {
    && AllPlanned(receipts, journal)
    && match journal
       case None => Replay(receipts, next, initial) == Some(head)
       case Some(j) =>
         && j.transaction < next
         && Below(receipts.Keys, j.transaction + 1)
         && Replay(receipts, j.transaction, initial) == Some(j.fromHead)
         && (j.transaction in receipts ==>
               receipts[j.transaction].fromHead == j.fromHead && receipts[j.transaction].toHead == j.toHead && head == j.toHead)
  }

  ghost predicate Accounted(h: Host, initial: Lineage.Revision)
    reads h
  {
    Explains(h.migrationReceipts, h.migrationJournal, h.nextToken, h.databaseHead, initial)
  }

  function ReceiptOf(j: MigrationJournal, observed: Lineage.Revision): MigrationReceipt {
    MigrationReceipt(j.transaction, j.fromHead, j.toHead, observed, j.activeTree, j.candidateTree, j.candidateCommit, j.pending)
  }

  /** The receipt states the plan, the two trees and the head that was observed. */
  ghost predicate Attests(r: MigrationReceipt, plan: Lineage.Plan, active: Tree, candidate: Tree) {
    && r.fromHead == plan.fromHead && r.toHead == plan.toHead == r.observedHead && r.pending == plan.pending
    && r.activeTree == Sha256(active) && r.candidateTree == Sha256(candidate)
  }

  /** Dropping the journal keeps the account if the head is the from-head and no
      receipt was written, or the to-head and the receipt is there. */
  lemma DropJournal(receipts: Receipts, j: MigrationJournal, next: nat, head: Lineage.Revision, initial: Lineage.Revision)
    requires Explains(receipts, Some(j), next, head, initial)
    requires j.transaction in receipts || head == j.fromHead
    ensures Explains(receipts, None, next, head, initial)
  {
    ReplayLocal(receipts, receipts, j.transaction + 1, next, initial);
  }

  /** Starting at the current head keeps the account, under a fresh token. */
  lemma StartJournal(receipts: Receipts, j: MigrationJournal, head: Lineage.Revision, initial: Lineage.Revision)
    requires Explains(receipts, None, j.transaction, head, initial) && j.fromHead == head
    requires Below(receipts.Keys, j.transaction) && Planned(ReceiptOf(j, j.toHead))
    ensures Explains(receipts, Some(j), j.transaction + 1, head, initial)
    ensures Explains(receipts, None, j.transaction + 1, head, initial)
  {
    ReplayLocal(receipts, receipts, j.transaction, j.transaction + 1, initial);
  }

  /** Writing the journal's receipt keeps the account once the head is the to-head. */
  lemma WriteReceipt(receipts: Receipts, j: MigrationJournal, next: nat, head: Lineage.Revision, initial: Lineage.Revision)
    requires Explains(receipts, Some(j), next, head, initial) && head == j.toHead
    ensures Explains(receipts[j.transaction := ReceiptOf(j, head)], Some(j), next, head, initial)
    ensures ReceiptsGrow(receipts, receipts[j.transaction := ReceiptOf(j, head)])
  {
    ReplayLocal(receipts[j.transaction := ReceiptOf(j, head)], receipts, j.transaction, j.transaction, initial);
  }

  /** recover_migration_transaction: the from-head means not applied, the
      to-head means completed, and any other head never clears the journal. */
  method RecoverMigrationTransaction(h: Host, ghost initial: Lineage.Revision) returns (o: Outcome<Error>)
    requires Accounted(h, initial) && h.Valid()
    modifies h`clock, h`migrationJournal, h`migrationReceipts
    ensures Accounted(h, initial) && h.Valid() && ReceiptsGrow(old(h.migrationReceipts), h.migrationReceipts)
    ensures o.Done? ==> h.migrationJournal.None?
    ensures h.migrationJournal.None? || h.migrationJournal == old(h.migrationJournal)
    ensures var j := old(h.migrationJournal);
            j.Some? && h.databaseHead != j.value.fromHead && h.databaseHead != j.value.toHead ==>
              !o.Done? && h.migrationJournal == j && h.migrationReceipts == old(h.migrationReceipts)
    ensures var j := old(h.migrationJournal);
            j.Some? && o.Done? && h.databaseHead != j.value.fromHead ==>
              h.migrationReceipts == old(h.migrationReceipts)[j.value.transaction := ReceiptOf(j.value, h.databaseHead)]
    ensures var j := old(h.migrationJournal);
            j.Some? && h.databaseHead == j.value.fromHead ==> h.migrationReceipts == old(h.migrationReceipts)
    ensures h.clock >= old(h.clock)
    ensures AllWork(h.fate, old(h.clock)) ==>
              (o.Done? <==> var j := old(h.migrationJournal);
                            j.None? || h.databaseHead in {j.value.fromHead, j.value.toHead})
  {
    if h.migrationJournal.None? {
      return Done;
    }
    var j := h.migrationJournal.value;
    var probe, observed := h.ProbeDatabaseHead();
    if !probe.Done? {
      return probe;
    }
    if observed == j.fromHead {
      DropJournal(h.migrationReceipts, j, h.nextToken, observed, initial);
      o := h.UnlinkMigrationJournal();
    } else if observed == j.toHead {
      WriteReceipt(h.migrationReceipts, j, h.nextToken, observed, initial);
      o := h.WriteMigrationReceipt(ReceiptOf(j, observed));
      if o.Done? {
        DropJournal(h.migrationReceipts, j, h.nextToken, observed, initial);
        o := h.UnlinkMigrationJournal();
      }
    } else {
      o := Raised(StateAmbiguous(observed));
    }
  }

  /** compare_release_migrations on the active tree and the candidate. */
  function PlanFor(trees: map<Place, Tree>, candidate: Tree): Result<Lineage.Plan, Error> {
    if Active !in trees then Err(ActiveDirectoryUnsafe)
    else
      var compared := Lineage.CompareReleaseMigrations(trees[Active].schema, candidate.schema);
      if compared.Err? then Err(MigrationPlanRefused(compared.error)) else Ok(compared.value)
  }

  /** A plan leads from head to head through compatible revisions of the candidate. */
  ghost predicate PlanHolds(plan: Lineage.Plan, candidate: Tree) {
    && Lineage.IsPath(candidate.schema.revisions, plan.fromHead, plan.toHead, plan.pending)
    && Lineage.AllCompatible(candidate.schema, plan.pending)
  }

  ghost predicate IsPlanFor(planned: Result<Lineage.Plan, Error>, trees: map<Place, Tree>, candidate: Tree) {
    planned.Ok? ==> Active in trees && PlanHolds(planned.value, candidate)
  }

  lemma PlanForHolds(trees: map<Place, Tree>, candidate: Tree)
    ensures IsPlanFor(PlanFor(trees, candidate), trees, candidate)
  {
    if PlanFor(trees, candidate).Ok? {
      Lineage.PlanMeaning(trees[Active].schema, candidate.schema, PlanFor(trees, candidate).value);
    }
  }

  /** A migration is required, planned and backed up, and the database is where
      the plan starts. */
  predicate Feasible(planned: Result<Lineage.Plan, Error>, backupReceiptValid: bool, head: Lineage.Revision) {
    planned.Ok? && planned.value.required && backupReceiptValid && head == planned.value.fromHead
  }

  /** The checks before anything is journaled: the plan, the backup receipt and
      the head it starts from. None: no migration is required. */
  method PlanMigration(h: Host, planned: Result<Lineage.Plan, Error>, backupReceiptValid: bool)
    returns (o: Outcome<Error>, plan: Option<Lineage.Plan>)
    modifies h`clock
    ensures o.Done? ==> planned.Ok? && plan == if planned.value.required then Some(planned.value) else None
    ensures o.Done? && plan.Some? ==> Feasible(planned, backupReceiptValid, h.databaseHead)
    ensures h.clock >= old(h.clock)
    ensures AllWork(h.fate, old(h.clock)) && Feasible(planned, backupReceiptValid, h.databaseHead) ==> o.Done? && plan.Some?
  {
    if planned.Err? {
      return Raised(planned.error), None;
    }
    if !planned.value.required {
      return Done, None;
    }
    if !backupReceiptValid {
      return Raised(BackupReceiptInvalid), None;
    }
    var observed;
    plan := None;
    o, observed := h.ProbeDatabaseHead();
    if o.Done? {
      if observed != planned.value.fromHead {
        return Raised(PreHeadMismatch), None;
      }
      plan := Some(planned.value);
    }
  }

  /** The command, then the probe of the head it left. */
  method ExecuteCommand(h: Host, j: MigrationJournal, effect: Lineage.Revision, result: CommandResult, ghost initial: Lineage.Revision)
    returns (o: Outcome<Error>)
    requires Accounted(h, initial) && h.Valid() && h.migrationJournal == Some(j) && j.transaction !in h.migrationReceipts
    modifies h`clock, h`migrationJournal, h`databaseHead
    ensures Accounted(h, initial) && h.Valid()
    ensures h.databaseHead == effect
    ensures h.migrationJournal.Some? && h.migrationJournal.value == j.(status := h.migrationJournal.value.status)
    ensures o.Done? ==> effect == j.toHead && result.Succeeded?
    ensures AllWork(h.fate, old(h.clock)) ==> (o.Done? <==> effect == j.toHead && result.Succeeded?)
    ensures h.clock >= old(h.clock)
  {
    o := h.RunMigrationCommand(effect, result);
    if o.Done? {
      o := h.WriteMigrationJournal(j.(status := CommandCompleted));
    }
    if o.Done? {
      var observed;
      o, observed := h.ProbeDatabaseHead();
      if o.Done? && observed != j.toHead {
        o := Raised(PostHeadMismatch);
      }
    }
  }

  /** The receipt, the audit event, and the journal unlink that commits. */
  method CommitMigration(h: Host, j: MigrationJournal, ghost initial: Lineage.Revision) returns (o: Outcome<Error>)
    requires Accounted(h, initial) && h.Valid() && h.databaseHead == j.toHead
    requires h.migrationJournal.Some? && h.migrationJournal.value == j.(status := h.migrationJournal.value.status)
    modifies h`clock, h`migrationJournal, h`migrationReceipts, h`audit
    ensures Accounted(h, initial) && h.Valid()
    ensures h.migrationReceipts == old(h.migrationReceipts) ||
            h.migrationReceipts == old(h.migrationReceipts)[j.transaction := ReceiptOf(j, j.toHead)]
    ensures o.Done? ==>
              && h.migrationJournal.None?
              && h.migrationReceipts == old(h.migrationReceipts)[j.transaction := ReceiptOf(j, j.toHead)]
              && h.audit == old(h.audit) + [DatabaseMigrationCommitted(ReceiptOf(j, j.toHead))]
    ensures !o.Done? ==> h.migrationJournal == old(h.migrationJournal)
    ensures AllWork(h.fate, old(h.clock)) ==> o.Done?
    ensures h.clock >= old(h.clock)
  {
    var receipt := ReceiptOf(j, j.toHead);
    ghost var current := h.migrationJournal.value;
    assert receipt == ReceiptOf(current, h.databaseHead);
    WriteReceipt(h.migrationReceipts, current, h.nextToken, h.databaseHead, initial);
    o := h.WriteMigrationReceipt(receipt);
    if o.Done? {
      o := h.AppendAudit(DatabaseMigrationCommitted(receipt));
    }
    if o.Done? {
      DropJournal(h.migrationReceipts, current, h.nextToken, h.databaseHead, initial);
      o := h.UnlinkMigrationJournal();
    }
  }

  /** run_guarded_migration under the operation lock, for any candidate tree,
      any effect of the command on the database and any way the command ends. */
  method RunGuardedMigration(
    h: Host,
    candidate: Tree,
    candidateCommit: Option<string>,
    backupReceiptValid: bool,
    effect: Lineage.Revision,
    result: CommandResult,
    ghost initial: Lineage.Revision)
    returns (o: Outcome<Error>, migrated: Option<MigrationReceipt>)
    requires Accounted(h, initial) && h.Valid() && h.AtMostOneJournal()
    modifies h`clock, h`nextToken, h`migrationJournal, h`migrationReceipts, h`databaseHead, h`audit
    ensures Accounted(h, initial) && h.Valid() && h.AtMostOneJournal()
    ensures ReceiptsGrow(old(h.migrationReceipts), h.migrationReceipts)
    ensures o.Done? ==> h.migrationJournal.None? && h.updateJournal.None?
    ensures var planned := PlanFor(h.trees, candidate);
            && (migrated.Some? ==>
                  o.Done? && planned.Ok? && planned.value.required && backupReceiptValid
                  && Committed(h, planned.value, candidate, effect, result, migrated.value, old(h.audit)))
            && (AllWork(h.fate, old(h.clock)) && old(h.JournalKinds()) == {} && Feasible(planned, backupReceiptValid, old(h.databaseHead)) ==>
                  (migrated.Some? <==> result.Succeeded? && effect == planned.value.toHead))
    ensures h.databaseHead != old(h.databaseHead) ==> h.databaseHead == effect && (migrated.Some? || h.migrationJournal.Some?)
  {
    // the active tree does not change before the plan is made
    PlanForHolds(h.trees, candidate);
    o, migrated := MigrateAsPlanned(
      h, PlanFor(h.trees, candidate), candidate, candidateCommit, backupReceiptValid, effect, result, initial);
  }

  /** The migration is on record: the receipt attests the plan and the two trees,
      the database is at its head, and the audit log names it. */
  ghost predicate Committed(
    h: Host, plan: Lineage.Plan, candidate: Tree, effect: Lineage.Revision, result: CommandResult,
    migrated: MigrationReceipt, earlier: seq<AuditEvent>)
    reads h
  {
    && Active in h.trees && result.Succeeded? && Attests(migrated, plan, h.trees[Active], candidate)
    && h.databaseHead == effect == migrated.observedHead
    && migrated.transaction in h.migrationReceipts && h.migrationReceipts[migrated.transaction] == migrated
    && h.audit == earlier + [DatabaseMigrationCommitted(migrated)]
  }

  method MigrateAsPlanned(
    h: Host,
    planned: Result<Lineage.Plan, Error>,
    candidate: Tree,
    candidateCommit: Option<string>,
    backupReceiptValid: bool,
    effect: Lineage.Revision,
    result: CommandResult,
    ghost initial: Lineage.Revision)
    returns (o: Outcome<Error>, migrated: Option<MigrationReceipt>)
    requires Accounted(h, initial) && h.Valid() && h.AtMostOneJournal() && IsPlanFor(planned, h.trees, candidate)
    modifies h`clock, h`nextToken, h`migrationJournal, h`migrationReceipts, h`databaseHead, h`audit
    ensures Accounted(h, initial) && h.Valid() && h.AtMostOneJournal()
    ensures ReceiptsGrow(old(h.migrationReceipts), h.migrationReceipts)
    ensures o.Done? ==> h.migrationJournal.None? && h.updateJournal.None?
    ensures migrated.Some? ==>
              && o.Done? && planned.Ok? && planned.value.required && backupReceiptValid
              && Committed(h, planned.value, candidate, effect, result, migrated.value, old(h.audit))
    ensures AllWork(h.fate, old(h.clock)) && old(h.JournalKinds()) == {} && Feasible(planned, backupReceiptValid, old(h.databaseHead)) ==>
              (migrated.Some? <==> result.Succeeded? && effect == planned.value.toHead)
    ensures h.clock >= old(h.clock)
    ensures h.databaseHead != old(h.databaseHead) ==> h.databaseHead == effect && (migrated.Some? || h.migrationJournal.Some?)
  {
    migrated := None;
    var plan;
    o, plan := ClearAndPlan(h, planned, backupReceiptValid, initial);
    if o.Done? && plan.Some? {
      o, migrated := StartMigration(h, plan.value, candidate, candidateCommit, effect, result, initial);
    }
  }

  /** The conflict check, the recovery and the plan. */
  method ClearAndPlan(h: Host, planned: Result<Lineage.Plan, Error>, backupReceiptValid: bool, ghost initial: Lineage.Revision)
    returns (o: Outcome<Error>, plan: Option<Lineage.Plan>)
    requires Accounted(h, initial) && h.Valid() && h.AtMostOneJournal()
    modifies h`clock, h`migrationJournal, h`migrationReceipts
    ensures Accounted(h, initial) && h.Valid() && h.AtMostOneJournal()
    ensures ReceiptsGrow(old(h.migrationReceipts), h.migrationReceipts)
    ensures o.Done? ==> h.migrationJournal.None? && h.updateJournal.None?
    ensures o.Done? && plan.Some? ==> Feasible(planned, backupReceiptValid, h.databaseHead) && planned.value == plan.value
    ensures h.clock >= old(h.clock)
    ensures AllWork(h.fate, old(h.clock)) && old(h.JournalKinds()) == {} && Feasible(planned, backupReceiptValid, h.databaseHead) ==>
              o.Done? && plan.Some?
  {
    plan := None;
    o := CheckAndRecover(h, initial);
    if o.Done? {
      o, plan := PlanMigration(h, planned, backupReceiptValid);
    }
  }

  /** The conflict check, then the recovery of an interrupted migration. */
  method CheckAndRecover(h: Host, ghost initial: Lineage.Revision) returns (o: Outcome<Error>)
    requires Accounted(h, initial) && h.Valid() && h.AtMostOneJournal()
    modifies h`clock, h`migrationJournal, h`migrationReceipts
    ensures Accounted(h, initial) && h.Valid() && h.AtMostOneJournal()
    ensures ReceiptsGrow(old(h.migrationReceipts), h.migrationReceipts)
    ensures o.Done? ==> h.migrationJournal.None? && h.updateJournal.None?
    ensures h.clock >= old(h.clock) && (AllWork(h.fate, old(h.clock)) && old(h.JournalKinds()) == {} ==> o.Done?)
  {
    o := h.AssertNoConflictingJournals({DatabaseMigration});
    assert h.updateJournal.Some? ==> ReleaseUpdate in h.JournalKinds();
    assert h.migrationJournal.Some? ==> DatabaseMigration in h.JournalKinds();
    if o.Done? {
      o := RecoverMigrationTransaction(h, initial);
    }
  }

  /** What follows the journal. */
  method ExecuteAndCommit(h: Host, j: MigrationJournal, effect: Lineage.Revision, result: CommandResult, ghost initial: Lineage.Revision)
    returns (o: Outcome<Error>)
    requires Accounted(h, initial) && h.Valid() && h.migrationJournal == Some(j) && j.transaction !in h.migrationReceipts
    modifies h`clock, h`migrationJournal, h`migrationReceipts, h`databaseHead, h`audit
    ensures Accounted(h, initial) && h.Valid() && h.databaseHead == effect && h.clock >= old(h.clock)
    ensures h.migrationReceipts == old(h.migrationReceipts) ||
            h.migrationReceipts == old(h.migrationReceipts)[j.transaction := ReceiptOf(j, j.toHead)]
    ensures if o.Done? then
              && result.Succeeded? && effect == j.toHead && h.migrationJournal.None?
              && h.migrationReceipts == old(h.migrationReceipts)[j.transaction := ReceiptOf(j, j.toHead)]
              && h.audit == old(h.audit) + [DatabaseMigrationCommitted(ReceiptOf(j, j.toHead))]
            else h.migrationJournal.Some?
    ensures AllWork(h.fate, old(h.clock)) && effect == j.toHead && result.Succeeded? ==> o.Done?
  {
    o := ExecuteCommand(h, j, effect, result, initial);
    if o.Done? {
      o := CommitMigration(h, j, initial);
    }
  }

  method StartMigration(
    h: Host,
    plan: Lineage.Plan,
    candidate: Tree,
    candidateCommit: Option<string>,
    effect: Lineage.Revision,
    result: CommandResult,
    ghost initial: Lineage.Revision)
    returns (o: Outcome<Error>, migrated: Option<MigrationReceipt>)
    requires Accounted(h, initial) && h.Valid() && h.migrationJournal.None?
    requires Active in h.trees && h.databaseHead == plan.fromHead && PlanHolds(plan, candidate)
    modifies h`clock, h`nextToken, h`migrationJournal, h`migrationReceipts, h`databaseHead, h`audit
    ensures Accounted(h, initial) && h.Valid() && ReceiptsGrow(old(h.migrationReceipts), h.migrationReceipts)
    ensures o.Done? ==>
              && h.migrationJournal.None? && migrated.Some?
              && Committed(h, plan, candidate, effect, result, migrated.value, old(h.audit))
    ensures !o.Done? ==> migrated.None?
    ensures AllWork(h.fate, old(h.clock)) ==> (o.Done? <==> effect == plan.toHead && result.Succeeded?)
    ensures h.clock >= old(h.clock)
    ensures h.databaseHead != old(h.databaseHead) ==> h.databaseHead == effect && (migrated.Some? || h.migrationJournal.Some?)
  {
    migrated := None;
    var token := h.FreshToken();
    var j := MigrationJournal(MigrationPrepared, token, plan.fromHead, plan.toHead, plan.pending,
                              Sha256(h.trees[Active]), Sha256(candidate), candidateCommit);
    StartJournal(h.migrationReceipts, j, h.databaseHead, initial);
    o := h.WriteMigrationJournal(j);
    if o.Done? {
      o := ExecuteAndCommit(h, j, effect, result, initial);
    }
    if o.Done? {
      migrated := Some(ReceiptOf(j, effect));
    }
  }
}
