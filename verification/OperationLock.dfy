/** The platform operation lock (scripts/operation_lock.py): a lock file with
    the identity of its owner, a heartbeat lease and the recovery of stale locks.
    The protocol is a state machine over single file operations, process events
    and clock moves, in any interleaving. */
module OperationLock {
  import opened Base

  /** A process instance. The start identity tells it from every other instance
      with the same process id in the same boot. */
  datatype Instance = Instance(host: string, boot: nat, pid: nat, start: nat)

  /** Epochs are counted in steps of the clock's representation. */
  datatype Lock = Lock(token: nat, owner: Instance, created: int, heartbeat: int)

  datatype OwnerState =
    | Alive
    | RemoteUnverifiable
    | BootIdentityUnverifiable
    | PriorBoot
    | Dead
    | ProcessIdentityUnverifiable
    | PidReused

  /** What a process learns about the owner's process id on its own host. */
  datatype Probe = Probe(boot: Option<nat>, pidAlive: bool, start: Option<nat>)

  /** _owner_state */
  function OwnerStateOf(lock: Lock, host: string, probe: Probe): OwnerState {
    if lock.owner.host != host then RemoteUnverifiable
    else if probe.boot.None? then BootIdentityUnverifiable
    else if lock.owner.boot != probe.boot.value then PriorBoot
    else if !probe.pidAlive then Dead
    else if probe.start.None? then ProcessIdentityUnverifiable
    else if probe.start.value != lock.owner.start then PidReused
    else Alive
  }

  predicate Gone(state: OwnerState) {
    state.PriorBoot? || state.Dead? || state.PidReused?
  }

  /** The lease is well formed and has run out. */
  predicate LeaseOver(lock: Lock, now: int, minimumAge: int) {
    lock.heartbeat >= lock.created && now - lock.heartbeat >= minimumAge
  }

  // ---- the state machine ----

  datatype Phase =
    | Idle
    | Read(lock: Lock)
    | Stale(lock: Lock)
    | Rechecked(lock: Lock)
    | Inside(token: nat)
    | Releasing(token: nat)

  /** ever holds every instance there has been, tokens who acquired under each token. */
  datatype State = State(
    file: Option<Lock>,
    now: int,
    boots: map<string, nat>,
    live: set<Instance>,
    ever: set<Instance>,
    phases: map<Instance, Phase>,
    tokens: map<nat, Instance>)

  datatype Step =
    | Spawn(i: Instance)
    | Die(i: Instance)
    | Reboot(rebooted: string)
    | MoveClock(now: int)
    | ReadLock(i: Instance)
    | Classify(i: Instance, probe: Probe, minimumAge: int)
    | Recheck(i: Instance)
    | Unlink(i: Instance)
    | Acquire(i: Instance, token: nat)
    | Heartbeat(i: Instance)
    | CheckRelease(i: Instance, heartbeatFailed: bool)
    | UnlinkReleased(i: Instance)

  function BootOf(s: State, host: string): nat {
    if host in s.boots then s.boots[host] else 0
  }

  function PhaseOf(s: State, i: Instance): Phase {
    if i in s.phases then s.phases[i] else Idle
  }

  /** A probe may fail to read an identity, but what it reads is so; a process
      that exists is not reported as missing. */
  ghost predicate Truthful(s: State, host: string, pid: nat, probe: Probe) {
    && (probe.boot.Some? ==> probe.boot.value == BootOf(s, host))
    && (forall j :: j in s.live && j.host == host && j.pid == pid ==>
          probe.pidAlive && (probe.start.Some? ==> probe.start.value == j.start))
    && (probe.start.Some? ==> exists j :: j in s.live && j.host == host && j.pid == pid)
  }

  ghost predicate Enabled(s: State, step: Step) {
    match step
    case Spawn(i) =>
      && i !in s.ever && i.boot == BootOf(s, i.host)
      && forall j :: j in s.live ==> !(j.host == i.host && j.pid == i.pid)
    case Die(i) => i in s.live
    case Reboot(_) => true
    case MoveClock(_) => true
    case ReadLock(i) => i in s.live && PhaseOf(s, i).Idle?
    case Classify(i, probe, _) =>
      i in s.live && PhaseOf(s, i).Read? && Truthful(s, i.host, PhaseOf(s, i).lock.owner.pid, probe)
    case Recheck(i) => i in s.live && PhaseOf(s, i).Stale?
    case Unlink(i) => i in s.live && PhaseOf(s, i).Rechecked?
    case Acquire(i, token) => i in s.live && PhaseOf(s, i).Idle? && token !in s.tokens
    case Heartbeat(i) => i in s.live && PhaseOf(s, i).Inside?
    case CheckRelease(i, _) => i in s.live && PhaseOf(s, i).Inside?
    case UnlinkReleased(i) => i in s.live && PhaseOf(s, i).Releasing?
  }

  function To(s: State, i: Instance, phase: Phase): State {
    s.(phases := s.phases[i := phase])
  }

  predicate Owns(file: Option<Lock>, i: Instance, token: nat) {
    file.Some? && file.value.token == token && file.value.owner.boot == i.boot && file.value.owner.start == i.start
  }

  function Max(a: int, b: int): int {
    if a >= b then a else b
  }

  /** _refresh_heartbeat on a lock that is owned */
  function Refreshed(lock: Lock, now: int): Lock {
    lock.(heartbeat := Max(now, lock.heartbeat + 1))
  }

  function Next(s: State, step: Step): State
    requires step.Classify? ==> PhaseOf(s, step.i).Read?
    requires step.Recheck? ==> PhaseOf(s, step.i).Stale?
    requires step.Heartbeat? || step.CheckRelease? ==> PhaseOf(s, step.i).Inside?
  {
    match step
    case Spawn(i) => To(s.(live := s.live + {i}, ever := s.ever + {i}), i, Idle)
    case Die(i) => s.(live := s.live - {i})
    case Reboot(host) =>
      s.(live := (set i | i in s.live && i.host != host), boots := s.boots[host := BootOf(s, host) + 1])
    case MoveClock(now) => s.(now := now)
    case ReadLock(i) => if s.file.Some? then To(s, i, Read(s.file.value)) else s
    case Classify(i, probe, minimumAge) =>
      var lock := PhaseOf(s, i).lock;
      To(s, i, if Gone(OwnerStateOf(lock, i.host, probe)) && LeaseOver(lock, s.now, minimumAge) then Stale(lock) else Idle)
    case Recheck(i) =>
      var lock := PhaseOf(s, i).lock;
      To(s, i, if s.file.Some? && s.file.value.token == lock.token then Rechecked(lock) else Idle)
    case Unlink(i) => To(s.(file := None), i, Idle)
    case Acquire(i, token) =>
      if s.file.Some? then s
      else To(s.(file := Some(Lock(token, i, s.now, s.now)), tokens := s.tokens[token := i]), i, Inside(token))
    case Heartbeat(i) =>
      if Owns(s.file, i, PhaseOf(s, i).token) then s.(file := Some(Refreshed(s.file.value, s.now))) else s
    case CheckRelease(i, heartbeatFailed) =>
      var token := PhaseOf(s, i).token;
      To(s, i, if !heartbeatFailed && Owns(s.file, i, token) then Releasing(token) else Idle)
    case UnlinkReleased(i) => To(s.(file := None), i, Idle)
  }

  ghost predicate InBody(s: State, i: Instance) {
    i in s.live && (PhaseOf(s, i).Inside? || PhaseOf(s, i).Releasing?)
  }

  ghost predicate Known(s: State, lock: Lock) {
    lock.token in s.tokens && s.tokens[lock.token] == lock.owner && lock.owner in s.ever
  }

  /** What is true of one instance: whoever is in the body owns the lock file;
      whoever holds a stale lock knows that its owner is gone. */
  ghost predicate Sound(s: State, i: Instance) {
    match PhaseOf(s, i)
    case Idle => true
    case Read(lock) => Known(s, lock)
    case Stale(lock) => Known(s, lock) && lock.owner !in s.live
    case Rechecked(lock) => Known(s, lock) && lock.owner !in s.live
    case Inside(token) => s.file.Some? && s.file.value.token == token && s.file.value.owner == i
    case Releasing(token) => s.file.Some? && s.file.value.token == token && s.file.value.owner == i
  }

  /** Instances are told apart by host, boot and process id while they live. */
  ghost predicate Processes(s: State) {
    && s.live <= s.ever
    && (forall i :: i in s.live ==> i.boot == BootOf(s, i.host))
    && (forall i, j :: i in s.live && j in s.live && i.host == j.host && i.pid == j.pid ==> i == j)
  }

  ghost predicate Inv(s: State) {
    && Processes(s)
    && (s.file.Some? ==> Known(s, s.file.value) && s.file.value.heartbeat >= s.file.value.created)
    && forall i :: i in s.live ==> Sound(s, i)
  }

  ghost predicate Initial(s: State) {
    s.file.None? && s.live == {} && s.ever == {} && s.tokens == map[]
  }

  /** On the lock's own host, when both identities can be read, the owner is
      declared gone exactly if it is, however its process id is reused. */
  lemma DeclaredGoneIffGone(s: State, lock: Lock, host: string, probe: Probe)
    requires Processes(s) && Truthful(s, host, lock.owner.pid, probe)
    ensures Gone(OwnerStateOf(lock, host, probe)) ==> lock.owner !in s.live
    ensures OwnerStateOf(lock, host, probe) == Alive ==> lock.owner in s.live
    ensures lock.owner.host == host && probe.boot.Some? && (probe.pidAlive ==> probe.start.Some?) ==>
              (Gone(OwnerStateOf(lock, host, probe)) <==> lock.owner !in s.live)
  {
  }

  /** Mutual exclusion, and the lock file names the one who is in. */
  lemma Exclusive(s: State, i: Instance, j: Instance)
    requires Inv(s) && InBody(s, i) && InBody(s, j)
    ensures i == j && s.file.Some? && s.file.value.owner == i && s.file.value.token == PhaseOf(s, i).token
  {
    assert Sound(s, i) && Sound(s, j);
  }

  /** Unlinking after the re-check keeps the invariant if and only if nobody is
      in the body by then. */
  lemma UnlinkIsSafeIffNobodyIsIn(s: State, i: Instance)
    requires Inv(s) && Enabled(s, Unlink(i))
    ensures Inv(Next(s, Unlink(i))) <==> forall j :: j in s.live ==> !InBody(s, j)
  {
    var t := Next(s, Unlink(i));
    forall j | j in s.live ensures Sound(t, j) <==> !InBody(s, j) {
      assert Sound(s, j);
    }
  }

  /** While the file still carries the re-checked token, nobody is in the body. */
  lemma StillStale(s: State, i: Instance)
    requires Inv(s) && i in s.live && PhaseOf(s, i).Rechecked?
    requires s.file.Some? ==> s.file.value.token == PhaseOf(s, i).lock.token
    ensures forall j :: j in s.live ==> !InBody(s, j)
  {
    assert Sound(s, i);
    forall j | j in s.live ensures !InBody(s, j) {
      assert Sound(s, j);
    }
  }

  lemma ProcessStep(s: State, step: Step)
    requires Inv(s) && Enabled(s, step) && (step.Spawn? || step.Die? || step.Reboot? || step.MoveClock?)
    ensures Inv(Next(s, step))
  {
    var t := Next(s, step);
    forall i | i in t.live ensures Sound(t, i) {
      if !step.Spawn? || i != step.i {
        assert Sound(s, i);
      }
    }
  }

  lemma RecoveryStep(s: State, step: Step)
    requires Inv(s) && Enabled(s, step) && (step.ReadLock? || step.Classify? || step.Recheck?)
    ensures Inv(Next(s, step))
  {
    var t := Next(s, step);
    assert Sound(s, step.i);
    if step.Classify? {
      DeclaredGoneIffGone(s, PhaseOf(s, step.i).lock, step.i.host, step.probe);
    }
    forall i | i in t.live ensures Sound(t, i) {
      assert Sound(s, i);
    }
  }

  lemma OwnerStep(s: State, step: Step)
    requires Inv(s) && Enabled(s, step)
    requires step.Acquire? || step.Heartbeat? || step.CheckRelease? || step.UnlinkReleased?
    ensures Inv(Next(s, step))
  {
    var t := Next(s, step);
    assert Sound(s, step.i);
    forall i | i in t.live ensures Sound(t, i) {
      assert Sound(s, i);
    }
  }

  /** Every step keeps the invariant, except an unlink that comes when somebody
      is in the body. */
  lemma StepKeepsInv(s: State, step: Step)
    requires Inv(s) && Enabled(s, step)
    requires step.Unlink? ==> forall j :: j in s.live ==> !InBody(s, j)
    ensures Inv(Next(s, step))
  {
    match step {
      case Unlink(i) => UnlinkIsSafeIffNobodyIsIn(s, i);
      case ReadLock(_) => RecoveryStep(s, step);
      case Classify(_, _, _) => RecoveryStep(s, step);
      case Recheck(_) => RecoveryStep(s, step);
      case Acquire(_, _) => OwnerStep(s, step);
      case Heartbeat(_) => OwnerStep(s, step);
      case CheckRelease(_, _) => OwnerStep(s, step);
      case UnlinkReleased(_) => OwnerStep(s, step);
      case _ => ProcessStep(s, step);
    }
  }

  /** states[k + 1] is reached from states[k] by steps[k]. */
  ghost predicate IsRun(states: seq<State>, steps: seq<Step>) {
    && |states| == |steps| + 1 && Initial(states[0])
    && forall k :: 0 <= k < |steps| ==> Enabled(states[k], steps[k]) && states[k + 1] == Next(states[k], steps[k])
  }

  /** The re-check and the unlink of a stale lock are not interrupted. */
  ghost predicate Uninterrupted(steps: seq<Step>) {
    forall k :: 0 <= k < |steps| && steps[k].Unlink? ==> Before(steps, k) == Some(Recheck(steps[k].i))
  }

  function Before(steps: seq<Step>, k: nat): Option<Step>
    requires k <= |steps|
  {
    if k == 0 then None else Some(steps[k - 1])
  }

  /** Mutual exclusion over all runs: whatever processes die, are started under
      reused process ids, reboot, read, probe, recover, acquire, refresh and
      release, in any interleaving on any number of hosts, the invariant holds,
      provided that no recovery is interrupted between re-check and unlink. */
  lemma {:induction false} RunsAreExclusive(states: seq<State>, steps: seq<Step>, n: nat)
    requires IsRun(states, steps) && Uninterrupted(steps) && n <= |steps|
    ensures Inv(states[n])
    ensures forall i, j :: InBody(states[n], i) && InBody(states[n], j) ==> i == j
    decreases n
  {
    if n > 0 {
      RunsAreExclusive(states, steps, n - 1);
      var s, step := states[n - 1], steps[n - 1];
      assert Enabled(s, step);
      if step.Unlink? {
        assert Before(steps, n - 1) == Some(Recheck(step.i));
        assert states[n - 1] == Next(states[n - 2], steps[n - 2]);
        StillStale(s, step.i);
      }
      StepKeepsInv(s, step);
    }
    forall i, j | InBody(states[n], i) && InBody(states[n], j) ensures i == j {
      Exclusive(states[n], i, j);
    }
  }

  /** A run, as one more step of a run. */
  lemma Extend(states: seq<State>, steps: seq<Step>, step: Step)
    requires IsRun(states, steps) && Enabled(states[|steps|], step)
    ensures IsRun(states + [Next(states[|steps|], step)], steps + [step])
  {
    var after, taken := states + [Next(states[|steps|], step)], steps + [step];
    forall k | 0 <= k < |taken| ensures Enabled(after[k], taken[k]) && after[k + 1] == Next(after[k], taken[k]) {
      if k < |steps| {
        assert Enabled(states[k], steps[k]) && states[k + 1] == Next(states[k], steps[k]);
      }
    }
  }

  /** Three processes of one host, which has not been rebooted. */
  ghost predicate Neighbours(dead: Instance, fast: Instance, slow: Instance) {
    && dead.host == fast.host == slow.host && dead.boot == fast.boot == slow.boot == 0
    && dead.pid != fast.pid && dead.pid != slow.pid && fast.pid != slow.pid
  }

  /** Whenever two processes have both re-checked a stale lock, the slower one
      can remove the lock of the faster one: both end up in the body. */
  lemma InterruptedRecoveryRaces(
    states: seq<State>, steps: seq<Step>, fast: Instance, slow: Instance, token: nat, other: nat)
    returns (states': seq<State>, steps': seq<Step>)
    requires IsRun(states, steps) && fast != slow && token != other
    requires var s := states[|steps|];
             && {fast, slow} <= s.live && PhaseOf(s, fast).Rechecked? && PhaseOf(s, slow).Rechecked?
             && token !in s.tokens && other !in s.tokens
    ensures steps' == steps + [Unlink(fast), Acquire(fast, token), Unlink(slow), Acquire(slow, other)]
    ensures IsRun(states', steps') && InBody(states'[|steps'|], fast) && InBody(states'[|steps'|], slow)
  {
    states', steps' := Continue(states, steps, Unlink(fast));
    states', steps' := Continue(states', steps', Acquire(fast, token));
    states', steps' := Continue(states', steps', Unlink(slow));
    states', steps' := Continue(states', steps', Acquire(slow, other));
  }

  lemma Continue(states: seq<State>, steps: seq<Step>, step: Step) returns (states': seq<State>, steps': seq<Step>)
    requires IsRun(states, steps) && Enabled(states[|steps|], step)
    ensures steps' == steps + [step] && IsRun(states', steps')
    ensures states' == states + [Next(states[|steps|], step)]
  {
    Extend(states, steps, step);
    states', steps' := states + [Next(states[|steps|], step)], steps + [step];
  }

  lemma DiesWithLock(dead: Instance) returns (states: seq<State>, steps: seq<Step>)
    requires dead.boot == 0
    ensures IsRun(states, steps)
    ensures states[|steps|] == State(Some(Lock(0, dead, 0, 0)), 30, map[], {}, {dead}, map[dead := Inside(0)], map[0 := dead])
  {
    states, steps := [State(None, 0, map[], {}, {}, map[], map[])], [];
    states, steps := Continue(states, steps, Spawn(dead));
    states, steps := Continue(states, steps, Acquire(dead, 0));
    states, steps := Continue(states, steps, Die(dead));
    states, steps := Continue(states, steps, MoveClock(30));
    assert states[|steps|].phases == map[dead := Inside(0)];
  }

  /** Such a moment exists: a process dies with the lock, and two others find it
      stale and re-check it. */
  lemma BothRecheck(dead: Instance, fast: Instance, slow: Instance) returns (states: seq<State>, steps: seq<Step>)
    requires Neighbours(dead, fast, slow)
    ensures IsRun(states, steps)
    ensures var s := states[|steps|];
            && {fast, slow} <= s.live && PhaseOf(s, fast).Rechecked? && PhaseOf(s, slow).Rechecked? && s.tokens.Keys == {0}
  {
    states, steps := DiesWithLock(dead);
    states, steps := Continue(states, steps, Spawn(fast));
    states, steps := Continue(states, steps, Spawn(slow));
    states, steps := RecheckStale(states, steps, fast, Lock(0, dead, 0, 0));
    states, steps := RecheckStale(states, steps, slow, Lock(0, dead, 0, 0));
  }

  lemma RecheckStale(states: seq<State>, steps: seq<Step>, i: Instance, lock: Lock)
    returns (states': seq<State>, steps': seq<Step>)
    requires IsRun(states, steps)
    requires var s := states[|steps|];
             && i in s.live && PhaseOf(s, i).Idle? && s.file == Some(lock) && LeaseOver(lock, s.now, 30)
             && lock.owner.host == i.host && lock.owner.boot == BootOf(s, i.host)
             && forall j :: j in s.live && j.host == i.host ==> j.pid != lock.owner.pid
    ensures IsRun(states', steps') && states'[|steps'|] == To(states[|steps|], i, Rechecked(lock))
  {
    var gone := Probe(Some(lock.owner.boot), false, Option.None);
    states', steps' := Continue(states, steps, ReadLock(i));
    states', steps' := Continue(states', steps', Classify(i, gone, 30));
    states', steps' := Continue(states', steps', Recheck(i));
    assert states'[|steps'|].phases == states[|steps|].phases[i := Rechecked(lock)];
  }

  // ---- the lease ----

  lemma LeaseStep(s: State, step: Step, token: nat)
    requires Enabled(s, step) && token in s.tokens
    ensures var t := Next(s, step);
            && token in t.tokens
            && (t.file.Some? && t.file.value.token == token ==>
                  && s.file.Some? && t.file.value == s.file.value.(heartbeat := t.file.value.heartbeat)
                  && (t.file == s.file || s.file.value.heartbeat < t.file.value.heartbeat))
  {
  }

  /** A file under an old token was there before, with no later heartbeat. */
  ghost predicate Inherits(before: State, after: State, token: nat) {
    && token in after.tokens
    && (after.file.Some? && after.file.value.token == token ==>
          before.file.Some? && SameLease(before.file.value, after.file.value))
  }

  lemma LeaseAcross(states: seq<State>, steps: seq<Step>, k: nat, token: nat)
    requires IsRun(states, steps) && k < |steps| && token in states[k].tokens
    ensures Inherits(states[k], states[k + 1], token)
  {
    assert Enabled(states[k], steps[k]) && states[k + 1] == Next(states[k], steps[k]);
    LeaseStep(states[k], steps[k], token);
  }

  /** The same lock, with a heartbeat that has not gone back. */
  predicate SameLease(before: Lock, after: Lock) {
    after == before.(heartbeat := after.heartbeat) && before.heartbeat <= after.heartbeat
  }

  ghost predicate InheritsAt(states: seq<State>, k: nat, token: nat)
    requires k + 1 < |states|
  {
    token in states[k].tokens ==> Inherits(states[k], states[k + 1], token)
  }

  lemma {:induction false} LeaseKept(states: seq<State>, m: nat, n: nat, lock: Lock)
    requires m <= n < |states| && forall k: nat :: m <= k < n ==> InheritsAt(states, k, lock.token)
    requires states[m].file == Some(lock) && lock.token in states[m].tokens
    ensures lock.token in states[n].tokens
    ensures states[n].file.Some? && states[n].file.value.token == lock.token ==> SameLease(lock, states[n].file.value)
    decreases n
  {
    if m < n {
      LeaseKept(states, m, n - 1, lock);
      assert InheritsAt(states, n - 1, lock.token);
    }
  }

  /** Between two moments of a run at which the file carries the same token, the
      owner is the same and the heartbeat has not gone back. */
  lemma LeaseOnlyGrows(states: seq<State>, steps: seq<Step>, m: nat, n: nat, lock: Lock)
    requires IsRun(states, steps) && m <= n <= |steps|
    requires states[m].file == Some(lock) && lock.token in states[m].tokens
    ensures lock.token in states[n].tokens
    ensures states[n].file.Some? && states[n].file.value.token == lock.token ==> SameLease(lock, states[n].file.value)
  {
    forall k: nat | m <= k < n ensures InheritsAt(states, k, lock.token) {
      if lock.token in states[k].tokens {
        LeaseAcross(states, steps, k, lock.token);
      }
    }
    LeaseKept(states, m, n, lock);
  }

  // ---- the functions of the script ----

  /** The lock file as a reader finds it. */
  datatype LockFile = Missing | Unsafe | Invalid | Valid(lock: Lock)

  datatype Error =
    | LockUnsafe
    | LockInvalid
    | OwnerStillAlive
    | OwnerUnverifiable(state: OwnerState)
    | HeartbeatEpochInvalid
    | StaleAgeNotReached
    | Busy(owner: Instance)
    | OwnershipLost
    | OwnerIdentityChanged
    | HeartbeatFailed

  /** Doing the steps one after the other, with nothing in between. */
  ghost predicate Performs(s: State, steps: seq<Step>, t: State)
    decreases |steps|
  {
    if steps == [] then s == t
    else
      var front := steps[..|steps| - 1];
      exists u :: Performs(s, front, u) && Enabled(u, steps[|steps| - 1]) && t == Next(u, steps[|steps| - 1])
  }

  lemma PerformMore(s: State, steps: seq<Step>, t: State, step: Step)
    requires Performs(s, steps, t) && Enabled(t, step)
    ensures Performs(s, steps + [step], Next(t, step))
  {
    assert (steps + [step])[..|steps|] == steps;
  }

  /** The file as the state machine has it; it knows no unreadable files. */
  ghost predicate Shows(file: LockFile, s: State) {
    match file
    case Missing => s.file.None?
    case Valid(lock) => s.file == Some(lock)
    case _ => false
  }

  class LockDirectory {
    var file: LockFile

    constructor ()
      ensures file == Missing
    {
      file := Missing;
    }

    /** _read_lock */
    function Contents(): Result<Lock, Error>
      reads this
    {
      match file
      case Missing => Err(LockUnsafe)
      case Unsafe => Err(LockUnsafe)
      case Invalid => Err(LockInvalid)
      case Valid(lock) => Ok(lock)
    }

    /** recover_stale_lock, uninterrupted. It removes the file exactly if the lock
        can be read, its owner is declared gone and its lease is over, and does
        then what the machine's four recovery steps do. */
    method RecoverStaleLock(ghost s: State, me: Instance, probe: Probe, now: int, minimumAge: int)
      returns (r: Result<bool, Error>, ghost steps: seq<Step>, ghost t: State)
      requires Shows(file, s) ==> me in s.live && PhaseOf(s, me).Idle? && s.now == now
      requires Shows(file, s) && file.Valid? ==> Truthful(s, me.host, file.lock.owner.pid, probe)
      modifies this
      ensures r == Ok(true) <==>
              && old(file).Valid? && Gone(OwnerStateOf(old(file).lock, me.host, probe)) && LeaseOver(old(file).lock, now, minimumAge)
      ensures file == if r == Ok(true) then Missing else old(file)
      ensures r == Ok(false) <==> old(file) == Missing
      ensures r == Err(OwnerStillAlive) ==> old(file).Valid? && OwnerStateOf(old(file).lock, me.host, probe) == Alive
      ensures old(Shows(file, s)) ==>
                && Performs(s, steps, t) && Shows(file, t) && PhaseOf(t, me).Idle?
                && t.live == s.live && t.tokens == s.tokens && t.now == s.now
      ensures r == Ok(true) && old(Shows(file, s)) ==>
                steps == [ReadLock(me), Classify(me, probe, minimumAge), Recheck(me), Unlink(me)]
    {
      steps, t := [], s;
      if file.Missing? {
        return Ok(false), steps, t;
      }
      var payload := Contents();
      if payload.Err? {
        return Err(payload.error), steps, t;
      }
      var lock := payload.value;
      if Shows(file, s) {
        steps, t := Classified(s, me, probe, minimumAge);
      }
      var state := OwnerStateOf(lock, me.host, probe);
      if state == Alive {
        return Err(OwnerStillAlive), steps, t;
      }
      if !Gone(state) {
        return Err(OwnerUnverifiable(state)), steps, t;
      }
      if lock.heartbeat < lock.created {
        return Err(HeartbeatEpochInvalid), steps, t;
      }
      if now - lock.heartbeat < minimumAge {
        return Err(StaleAgeNotReached), steps, t;
      }
      if Shows(file, s) {
        steps, t := Removed(s, steps, t, me);
      }
      file := Missing;
      r := Ok(true);
    }

    /** The entry of operation_lock: recovery if asked for, then the exclusive
        creation of the file. It succeeds exactly if there is no file then. */
    method Enter(ghost s: State, me: Instance, token: nat, recoverStale: bool, probe: Probe, now: int, minimumAge: int)
      returns (r: Result<Lock, Error>, ghost steps: seq<Step>, ghost t: State)
      requires Shows(file, s) ==> me in s.live && PhaseOf(s, me).Idle? && s.now == now && token !in s.tokens
      requires Shows(file, s) && file.Valid? ==> Truthful(s, me.host, file.lock.owner.pid, probe)
      modifies this
      ensures r.Ok? <==>
              || old(file).Missing?
              || (recoverStale && old(file).Valid? && Gone(OwnerStateOf(old(file).lock, me.host, probe))
                  && LeaseOver(old(file).lock, now, minimumAge))
      ensures if r.Ok? then file == Valid(r.value) && r.value == Lock(token, me, now, now) else file == old(file)
      ensures old(Shows(file, s)) ==>
                Performs(s, steps, t) && Shows(file, t) && PhaseOf(t, me) == if r.Ok? then Inside(token) else Idle
    {
      steps, t := [], s;
      ghost var shown := Shows(file, s);
      if recoverStale && !file.Missing? {
        var recovered;
        recovered, steps, t := RecoverStaleLock(s, me, probe, now, minimumAge);
        if recovered.Err? {
          return Err(recovered.error), steps, t;
        }
      }
      if !file.Missing? {
        var existing := Contents();
        return Err(if existing.Ok? then Busy(existing.value.owner) else existing.error), steps, t;
      }
      if shown {
        PerformMore(s, steps, t, Acquire(me, token));
        steps, t := steps + [Acquire(me, token)], Next(t, Acquire(me, token));
      }
      file := Valid(Lock(token, me, now, now));
      r := Ok(file.lock);
    }

    /** _refresh_heartbeat: it refuses a lock that is not the caller's, and else
        moves the heartbeat strictly forward. */
    method RefreshHeartbeat(ghost s: State, me: Instance, token: nat, now: int) returns (r: Result<int, Error>)
      requires Shows(file, s) ==> me in s.live && PhaseOf(s, me) == Inside(token) && s.now == now
      modifies this
      ensures r.Ok? <==>
              && old(file).Valid? && Owns(Some(old(file).lock), me, token) && old(file).lock.heartbeat >= old(file).lock.created
      ensures r.Ok? ==> r.value > old(file).lock.heartbeat && r.value >= now && file == Valid(old(file).lock.(heartbeat := r.value))
      ensures r.Err? ==> file == old(file)
      ensures old(Shows(file, s)) && Inv(s) ==> r.Ok? && Enabled(s, Heartbeat(me)) && Shows(file, Next(s, Heartbeat(me)))
    {
      if Shows(file, s) && Inv(s) {
        assert Sound(s, me);
      }
      var current := Contents();
      if current.Err? {
        return Err(current.error);
      }
      var lock := current.value;
      if lock.token != token {
        return Err(OwnershipLost);
      }
      if lock.owner.boot != me.boot || lock.owner.start != me.start {
        return Err(OwnerIdentityChanged);
      }
      if lock.heartbeat < lock.created {
        return Err(HeartbeatEpochInvalid);
      }
      var next := Max(now, lock.heartbeat + 1);
      file := Valid(lock.(heartbeat := next));
      r := Ok(next);
    }

    /** The exit of operation_lock, after the heartbeat thread has stopped. A
        failed heartbeat leaves the file behind, unless the body failed too; no
        exit removes a lock of somebody else. */
    method Leave(ghost s: State, me: Instance, token: nat, heartbeatFailed: bool, bodyFailed: bool) returns (r: Result<(), Error>)
      requires Shows(file, s) ==> me in s.live && PhaseOf(s, me) == Inside(token)
      modifies this
      ensures var mine := old(file).Valid? && Owns(Some(old(file).lock), me, token);
              && (r.Ok? <==> bodyFailed || (mine && !heartbeatFailed))
              && file == if mine && (bodyFailed || !heartbeatFailed) then Missing else old(file)
      ensures old(Shows(file, s)) ==>
                var checked := Next(s, CheckRelease(me, heartbeatFailed && !bodyFailed));
                if PhaseOf(checked, me).Releasing? then Shows(file, Next(checked, UnlinkReleased(me))) else Shows(file, checked)
    {
      if heartbeatFailed && !bodyFailed {
        return Err(HeartbeatFailed);
      }
      var current := Contents();
      if current.Err? {
        return if bodyFailed then Ok(()) else Err(current.error);
      }
      if current.value.token != token {
        return if bodyFailed then Ok(()) else Err(OwnershipLost);
      }
      if current.value.owner.boot != me.boot || current.value.owner.start != me.start {
        return if bodyFailed then Ok(()) else Err(OwnerIdentityChanged);
      }
      file := Missing;
      r := Ok(());
    }
  }

  lemma Classified(s: State, me: Instance, probe: Probe, minimumAge: int) returns (steps: seq<Step>, t: State)
    requires me in s.live && PhaseOf(s, me).Idle? && s.file.Some? && Truthful(s, me.host, s.file.value.owner.pid, probe)
    ensures steps == [ReadLock(me), Classify(me, probe, minimumAge)] && Performs(s, steps, t) && t.file == s.file && t.live == s.live && t.tokens == s.tokens && t.now == s.now
    ensures PhaseOf(t, me) == if Gone(OwnerStateOf(s.file.value, me.host, probe)) && LeaseOver(s.file.value, s.now, minimumAge)
                              then Stale(s.file.value) else Idle
  {
    var u := Next(s, ReadLock(me));
    PerformMore(s, [], s, ReadLock(me));
    assert [] + [ReadLock(me)] == [ReadLock(me)];
    PerformMore(s, [ReadLock(me)], u, Classify(me, probe, minimumAge));
    assert [ReadLock(me)] + [Classify(me, probe, minimumAge)] == [ReadLock(me), Classify(me, probe, minimumAge)];
    steps, t := [ReadLock(me), Classify(me, probe, minimumAge)], Next(u, Classify(me, probe, minimumAge));
  }

  lemma Removed(s: State, steps: seq<Step>, u: State, me: Instance) returns (steps': seq<Step>, t: State)
    requires Performs(s, steps, u) && me in u.live && u.file.Some? && PhaseOf(u, me) == Stale(u.file.value)
    ensures steps' == steps + [Recheck(me), Unlink(me)] && Performs(s, steps', t) && t.file == None && PhaseOf(t, me).Idle?
    ensures t.live == u.live && t.tokens == u.tokens && t.now == u.now
  {
    var v := Next(u, Recheck(me));
    PerformMore(s, steps, u, Recheck(me));
    PerformMore(s, steps + [Recheck(me)], v, Unlink(me));
    assert steps + [Recheck(me)] + [Unlink(me)] == steps + [Recheck(me), Unlink(me)];
    steps', t := steps + [Recheck(me), Unlink(me)], Next(v, Unlink(me));
  }
}
