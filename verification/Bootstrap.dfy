/**
 * The double-checked bootstrap of slot databases: a lock-free precheck, the advisory
 * lifecycle lock, a re-check, ensure and migrate, release in every case, and a
 * per-process memo dropped on failure. Any number of processes interleave.
 */
module Bootstrap {
  import opened Prelude

  type Pid = nat

  type Name = string

  /** Applied migrations, and whether tables exist that the migration log does not account for. */
  datatype Db = Db(migrations: nat, orphanTables: bool)

  datatype Pc =
    | Out
    | CheckExists
    | CheckCount
    | AwaitLock
    | RecheckExists
    | RecheckCount
    | EnsureLookup
    | EnsureCreate
    | MigrateAll
    | ReleaseOk
    | ReleaseFailed
    | AwaitDropLock
    | DropDatabase

  datatype Memo = Absent | Pending | Resolved

  /** `coordination` is the database whose advisory locks the process uses; locks of different databases do not meet. */
  datatype Proc = Proc(coordination: Name, slot: Name, pc: Pc, memo: Memo)

  /**
   * `creates` logs every CREATE DATABASE that reaches the server, `drops` every database that
   * goes; `lost` holds the processes whose lock session has ended while they work under it.
   */
  datatype World = World(
    dbs: map<Name, Db>,
    locks: map<Name, Pid>,
    procs: map<Pid, Proc>,
    creates: seq<Name>,
    drops: seq<Name>,
    lost: set<Pid>)

  /** `fault` says that the server call of the step fails. */
  datatype Label = Call(pid: Pid) | CallDrop(pid: Pid) | Step(pid: Pid, fault: bool) | LoseLock(pid: Pid)

  predicate Critical(pc: Pc) {
    pc in {RecheckExists, RecheckCount, EnsureLookup, EnsureCreate, MigrateAll, ReleaseOk, ReleaseFailed, DropDatabase}
  }

  /** Steps that run catalog or migration DDL. */
  predicate RunsDdl(pc: Pc) {
    pc == EnsureCreate || pc == MigrateAll || pc == DropDatabase
  }

  /** Pending entries of the journal are applied in one transaction; a duplicate-table error is swallowed. */
  function Migrated(journal: nat, d: Db): Db {
    if d.migrations >= journal || d.orphanTables then d else Db(journal, false)
  }

  datatype LockOp = Keep | Take | Free

  /**
   * What one step of a process does: its next position, its memo, the lock, the slot database,
   * and whether CREATE DATABASE reached the server.
   */
  datatype Move = Move(pc: Pc, memo: Memo, lock: LockOp, db: Option<Db>, issued: bool := false)

  /** An error while probing counts as "not bootstrapped"; any other error releases the lock and propagates. */
  function LocalStep(journal: nat, p: Proc, db: Option<Db>, lockFree: bool, fault: bool): Move {
    var found := !fault && db.Some?;
    var ready := found && db.value.migrations == journal;
    match p.pc
    case Out => Move(Out, p.memo, Keep, db)
    case CheckExists => Move(if found then CheckCount else AwaitLock, p.memo, Keep, db)
    case CheckCount => if ready then Move(Out, Resolved, Keep, db) else Move(AwaitLock, p.memo, Keep, db)
    case AwaitLock =>
      if fault then Move(Out, Absent, Keep, db)
      else if !lockFree then Move(AwaitLock, p.memo, Keep, db)
      else Move(RecheckExists, p.memo, Take, db)
    case RecheckExists => Move(if found then RecheckCount else EnsureLookup, p.memo, Keep, db)
    case RecheckCount => Move(if ready then ReleaseOk else EnsureLookup, p.memo, Keep, db)
    case EnsureLookup =>
      Move(if fault then ReleaseFailed else if db.Some? then MigrateAll else EnsureCreate, p.memo, Keep, db)
    case EnsureCreate =>
      if fault then Move(ReleaseFailed, p.memo, Keep, db)
      else if db.Some? then Move(ReleaseFailed, p.memo, Keep, db, true)
      else Move(MigrateAll, p.memo, Keep, Some(Db(0, false)), true)
    case MigrateAll =>
      if !found then Move(ReleaseFailed, p.memo, Keep, db)
      else Move(ReleaseOk, p.memo, Keep, Some(Migrated(journal, db.value)))
    case ReleaseOk => Move(Out, if fault then Absent else Resolved, Free, db)
    case ReleaseFailed => Move(Out, if p.memo == Pending then Absent else p.memo, Free, db)
    case AwaitDropLock =>
      if fault then Move(Out, p.memo, Keep, db)
      else if !lockFree then Move(AwaitDropLock, p.memo, Keep, db)
      else Move(DropDatabase, p.memo, Take, db)
    case DropDatabase => Move(ReleaseFailed, p.memo, Keep, if fault then db else None)
  }

  function Lookup(dbs: map<Name, Db>, n: Name): Option<Db> {
    if n in dbs then Some(dbs[n]) else None
  }

  function MoveOf(journal: nat, w: World, pid: Pid, fault: bool): Move
    requires pid in w.procs
  {
    var p := w.procs[pid];
    LocalStep(journal, p, Lookup(w.dbs, p.slot), p.coordination !in w.locks, fault)
  }

  function NextStep(journal: nat, w: World, pid: Pid, fault: bool): World
    requires pid in w.procs
  {
    var p := w.procs[pid];
    var m := MoveOf(journal, w, pid, fault);
    World(
      if m.db.Some? then w.dbs[p.slot := m.db.value] else w.dbs - {p.slot},
      LocksAfter(w, pid, m.lock),
      w.procs[pid := p.(pc := m.pc, memo := m.memo)],
      if m.issued then w.creates + [p.slot] else w.creates,
      if m.db.None? && p.slot in w.dbs then w.drops + [p.slot] else w.drops,
      if m.lock == Keep then w.lost else w.lost - {pid})
  }

  /** A process frees its own lock only; after a lost session it may be somebody else's. */
  function LocksAfter(w: World, pid: Pid, op: LockOp): map<Name, Pid>
    requires pid in w.procs
  {
    var c := w.procs[pid].coordination;
    match op
    case Keep => w.locks
    case Take => w.locks[c := pid]
    case Free => if Holds(w, pid) then w.locks - {c} else w.locks
  }

  predicate Holds(w: World, pid: Pid)
    requires pid in w.procs
  {
    var c := w.procs[pid].coordination;
    c in w.locks && w.locks[c] == pid
  }

  function Next(journal: nat, w: World, l: Label): World {
    if l.pid !in w.procs then w
    else
      var p := w.procs[l.pid];
      match l
      case Call(pid) =>
        if p.pc == Out && p.memo == Absent
        then w.(procs := w.procs[pid := p.(pc := CheckExists, memo := Pending)]) else w
      case CallDrop(pid) => if p.pc == Out then w.(procs := w.procs[pid := p.(pc := AwaitDropLock)]) else w
      case Step(pid, fault) => NextStep(journal, w, pid, fault)
      case LoseLock(pid) =>
        if Holds(w, pid) then w.(locks := w.locks - {p.coordination}, lost := w.lost + {pid}) else w
  }

  function Exec(journal: nat, w: World, labels: seq<Label>): World
    decreases |labels|
  {
    if labels == [] then w else Exec(journal, Next(journal, w, labels[0]), labels[1..])
  }

  ghost predicate Initial(w: World) {
    && w.locks == map[] && w.creates == [] && w.drops == [] && w.lost == {}
    && forall pid :: pid in w.procs ==> w.procs[pid].pc == Out && w.procs[pid].memo == Absent
  }

  // ----- the lock

  ghost predicate LockSound(w: World) {
    && (forall pid :: pid in w.procs && Critical(w.procs[pid].pc) && pid !in w.lost ==> Holds(w, pid))
    && (forall pid :: pid in w.lost ==> pid in w.procs && Critical(w.procs[pid].pc))
    && (forall c :: c in w.locks ==>
          w.locks[c] in w.procs && w.procs[w.locks[c]].coordination == c && Critical(w.procs[w.locks[c]].pc))
  }

  predicate MemoFits(pc: Pc, memo: Memo) {
    match pc
    case Out | AwaitDropLock | DropDatabase => memo != Pending
    case ReleaseFailed => true
    case _ => memo == Pending
  }

  ghost predicate MemoSound(w: World) {
    forall pid :: pid in w.procs ==> MemoFits(w.procs[pid].pc, w.procs[pid].memo)
  }

  /** The lock is taken only on entry to the critical section, when free, and freed only on leaving it. */
  lemma MoveRespectsLock(journal: nat, p: Proc, db: Option<Db>, lockFree: bool, fault: bool)
    ensures var m := LocalStep(journal, p, db, lockFree, fault);
      && (m.lock == Take ==> lockFree && !Critical(p.pc) && Critical(m.pc))
      && (m.lock == Free ==> Critical(p.pc) && !Critical(m.pc))
      && (m.lock == Keep ==> (Critical(m.pc) <==> Critical(p.pc)))
      && (m.db != db ==> RunsDdl(p.pc) && Critical(p.pc))
  {
  }

  lemma OwnStepKeepsLock(journal: nat, w: World, pid: Pid, fault: bool)
    requires LockSound(w) && pid in w.procs
    ensures LockSound(Next(journal, w, Step(pid, fault)))
  {
    var p := w.procs[pid];
    MoveRespectsLock(journal, p, Lookup(w.dbs, p.slot), p.coordination !in w.locks, fault);
  }

  lemma StepKeepsLock(journal: nat, w: World, l: Label)
    requires LockSound(w)
    ensures LockSound(Next(journal, w, l))
  {
    if l.Step? && l.pid in w.procs {
      OwnStepKeepsLock(journal, w, l.pid, l.fault);
    }
  }

  lemma StepKeepsMemo(journal: nat, w: World, l: Label)
    requires MemoSound(w)
    ensures MemoSound(Next(journal, w, l))
  {
    if l.Step? && l.pid in w.procs {
      assert MemoFits(w.procs[l.pid].pc, w.procs[l.pid].memo);
    }
  }

  lemma {:induction false} RunKeepsLock(journal: nat, w: World, labels: seq<Label>)
    requires LockSound(w) && MemoSound(w)
    ensures LockSound(Exec(journal, w, labels)) && MemoSound(Exec(journal, w, labels))
    decreases |labels|
  {
    if labels != [] {
      StepKeepsLock(journal, w, labels[0]);
      StepKeepsMemo(journal, w, labels[0]);
      RunKeepsLock(journal, Next(journal, w, labels[0]), labels[1..]);
    }
  }

  /**
   * At most one process per coordination database is in the critical section, DDL included,
   * not counting processes whose lock session has ended.
   */
  lemma AtMostOneInCriticalSection(journal: nat, w0: World, labels: seq<Label>, p: Pid, q: Pid)
    requires Initial(w0)
    requires var w := Exec(journal, w0, labels);
      && p in w.procs && q in w.procs && w.procs[p].coordination == w.procs[q].coordination
      && Critical(w.procs[p].pc) && Critical(w.procs[q].pc) && p !in w.lost && q !in w.lost
    ensures p == q
  {
    RunKeepsLock(journal, w0, labels);
  }

  /** The lock is held by nobody but a process inside the critical section. */
  lemma LockHeldOnlyInside(journal: nat, w0: World, labels: seq<Label>, c: Name)
    requires Initial(w0) && c in Exec(journal, w0, labels).locks
    ensures var w := Exec(journal, w0, labels);
      w.locks[c] in w.procs && w.procs[w.locks[c]].coordination == c && Critical(w.procs[w.locks[c]].pc)
  {
    RunKeepsLock(journal, w0, labels);
  }

  // ----- the lock is released on every path

  /** How many of its own steps a process in the critical section still has before it is out. */
  ghost function StepsToRelease(pc: Pc): nat {
    match pc
    case RecheckExists => 6
    case RecheckCount => 5
    case EnsureLookup => 4
    case EnsureCreate => 3
    case MigrateAll => 2
    case DropDatabase => 2
    case ReleaseOk => 1
    case ReleaseFailed => 1
    case _ => 0
  }

  lemma HolderAdvances(journal: nat, w: World, pid: Pid, fault: bool)
    requires LockSound(w) && pid in w.procs && Critical(w.procs[pid].pc)
    ensures var w1 := Next(journal, w, Step(pid, fault));
      && LockSound(w1) && pid in w1.procs && w1.procs[pid].coordination == w.procs[pid].coordination
      && (if w1.procs[pid].pc == Out then !Holds(w1, pid)
          else Critical(w1.procs[pid].pc) && StepsToRelease(w1.procs[pid].pc) < StepsToRelease(w.procs[pid].pc))
  {
    StepKeepsLock(journal, w, Step(pid, fault));
  }

  ghost function StepsOf(labels: seq<Label>, pid: Pid): nat {
    if labels == [] then 0 else (if labels[0].Step? && labels[0].pid == pid then 1 else 0) + StepsOf(labels[1..], pid)
  }

  /** Nobody else moves a process, and its own calls do not either while it is inside. */
  lemma OthersLeaveHolder(journal: nat, w: World, l: Label, pid: Pid)
    requires pid in w.procs && Critical(w.procs[pid].pc) && !(l.Step? && l.pid == pid)
    ensures pid in Next(journal, w, l).procs && Next(journal, w, l).procs[pid] == w.procs[pid]
  {
  }

  ghost predicate ReleasedIn(journal: nat, w: World, pid: Pid, labels: seq<Label>)
    requires pid in w.procs
  {
    exists k ::
      && 0 <= k <= |labels|
      && var w' := Exec(journal, w, labels[..k]);
         pid in w'.procs && w'.procs[pid].pc == Out && !Holds(w', pid)
  }

  lemma ReleasedLater(journal: nat, w: World, pid: Pid, labels: seq<Label>)
    requires labels != [] && pid in w.procs
    requires var w1 := Next(journal, w, labels[0]);
      && pid in w1.procs
      && ReleasedIn(journal, w1, pid, labels[1..])
    ensures ReleasedIn(journal, w, pid, labels)
  {
    var w1 := Next(journal, w, labels[0]);
    var k :| 0 <= k <= |labels[1..]| && var w' := Exec(journal, w1, labels[1..][..k]);
      pid in w'.procs && w'.procs[pid].pc == Out && !Holds(w', pid);
    assert labels[..k + 1][1..] == labels[1..][..k];
    assert Exec(journal, w, labels[..k + 1]) == Exec(journal, w1, labels[1..][..k]);
  }

  /**
   * The lock is released on every path: in any run, however others interleave and whatever
   * fails, a process inside that takes its remaining steps has been outside without the lock.
   */
  lemma {:induction false} HolderAlwaysReleases(journal: nat, w: World, pid: Pid, labels: seq<Label>)
    requires LockSound(w) && pid in w.procs && Critical(w.procs[pid].pc)
    requires StepsOf(labels, pid) >= StepsToRelease(w.procs[pid].pc)
    ensures ReleasedIn(journal, w, pid, labels)
    decreases |labels|
  {
    var l := labels[0];
    var w1 := Next(journal, w, l);
    if l.Step? && l.pid == pid {
      HolderAdvances(journal, w, pid, l.fault);
      if w1.procs[pid].pc == Out {
        assert labels[1..][..0] == [];
        assert Exec(journal, w1, labels[1..][..0]) == w1;
        assert ReleasedIn(journal, w1, pid, labels[1..]);
      } else {
        HolderAlwaysReleases(journal, w1, pid, labels[1..]);
      }
    } else {
      OthersLeaveHolder(journal, w, l, pid);
      StepKeepsLock(journal, w, l);
      HolderAlwaysReleases(journal, w1, pid, labels[1..]);
    }
    ReleasedLater(journal, w, pid, labels);
  }

  /** Left to itself, a process inside is out without the lock after at most six steps, whatever fails. */
  lemma ReleasedAfterSix(journal: nat, w: World, pid: Pid, f: seq<bool>)
    requires LockSound(w) && pid in w.procs && Critical(w.procs[pid].pc) && |f| == 6
    ensures ReleasedIn(journal, w, pid,
      [Step(pid, f[0]), Step(pid, f[1]), Step(pid, f[2]), Step(pid, f[3]), Step(pid, f[4]), Step(pid, f[5])])
  {
    var labels :=
      [Step(pid, f[0]), Step(pid, f[1]), Step(pid, f[2]), Step(pid, f[3]), Step(pid, f[4]), Step(pid, f[5])];
    AllOwnSteps(labels, pid);
    HolderAlwaysReleases(journal, w, pid, labels);
  }

  lemma {:induction false} AllOwnSteps(labels: seq<Label>, pid: Pid)
    requires forall i :: 0 <= i < |labels| ==> labels[i].Step? && labels[i].pid == pid
    ensures StepsOf(labels, pid) == |labels|
    decreases |labels|
  {
    if labels != [] {
      AllOwnSteps(labels[1..], pid);
    }
  }

  /** A drop that fails leaves every database; one that goes through takes the slot and nothing else. */
  lemma DropTurn(journal: nat, w: World, pid: Pid, fault: bool)
    requires pid in w.procs && w.procs[pid].pc == DropDatabase
    ensures var p, w1 := w.procs[pid], Next(journal, w, Step(pid, fault));
      && pid in w1.procs && w1.procs[pid] == p.(pc := ReleaseFailed) && w1.locks == w.locks
      && w1.creates == w.creates
      && (fault ==> w1.dbs == w.dbs && w1.drops == w.drops)
      && (!fault ==> p.slot !in w1.dbs && forall n :: n != p.slot ==> Lookup(w1.dbs, n) == Lookup(w.dbs, n))
  {
    var p := w.procs[pid];
    assert p.slot in w.dbs ==> w.dbs[p.slot := w.dbs[p.slot]] == w.dbs;
  }

  // ----- waiting for the lock

  ghost predicate LockTaken(w: World, pid: Pid)
    requires pid in w.procs
  {
    w.procs[pid].coordination in w.locks
  }

  /**
   * A call that asks for the lock fails only when its own server call fails, changes nothing
   * at all while the lock is held, and takes the lock when it is free.
   */
  lemma LockTurn(journal: nat, w: World, pid: Pid, fault: bool)
    requires pid in w.procs && w.procs[pid].pc in {AwaitLock, AwaitDropLock}
    ensures var p, w1 := w.procs[pid], Next(journal, w, Step(pid, fault));
      && w1.dbs == w.dbs && w1.creates == w.creates && w1.drops == w.drops && pid in w1.procs
      && (fault ==>
            && w1.locks == w.locks && w1.procs[pid].pc == Out
            && w1.procs[pid].memo == (if p.pc == AwaitLock then Absent else p.memo))
      && (!fault && LockTaken(w, pid) ==> w1 == w)
      && (!fault && !LockTaken(w, pid) ==>
            && w1.locks == w.locks[p.coordination := pid] && w1.procs[pid].memo == p.memo
            && w1.procs[pid].pc == (if p.pc == AwaitLock then RecheckExists else DropDatabase))
  {
    var p := w.procs[pid];
    assert p.slot in w.dbs ==> w.dbs[p.slot := w.dbs[p.slot]] == w.dbs;
    assert w.procs[pid := p] == w.procs;
  }

  /** Every step of the process in the run finds the lock held, and its server call goes through. */
  ghost predicate FindsLockHeld(journal: nat, w: World, pid: Pid, labels: seq<Label>)
    decreases |labels|
  {
    labels == [] || (
      && (labels[0].Step? && labels[0].pid == pid ==> !labels[0].fault && pid in w.procs && LockTaken(w, pid))
      && FindsLockHeld(journal, Next(journal, w, labels[0]), pid, labels[1..]))
  }

  /** The process is where it was throughout the run. */
  ghost predicate StaysPut(journal: nat, w: World, pid: Pid, labels: seq<Label>)
    requires pid in w.procs
  {
    forall k :: 0 <= k <= |labels| ==>
      var w' := Exec(journal, w, labels[..k]);
      pid in w'.procs && w'.procs[pid] == w.procs[pid]
  }

  /** In any run a call waits exactly as long as it finds the lock held and its own server call does not fail. */
  lemma {:induction false} CallWaitsIffLockHeld(journal: nat, w: World, pid: Pid, labels: seq<Label>)
    requires pid in w.procs && w.procs[pid].pc in {AwaitLock, AwaitDropLock}
    ensures StaysPut(journal, w, pid, labels) <==> FindsLockHeld(journal, w, pid, labels)
    decreases |labels|
  {
    if labels == [] {
      assert labels[..0] == [];
    } else {
      var w1 := Next(journal, w, labels[0]);
      if labels[0].Step? && labels[0].pid == pid {
        LockTurn(journal, w, pid, labels[0].fault);
      }
      assert labels[..1][1..] == [];
      assert Exec(journal, w, labels[..1]) == w1;
      assert pid in w1.procs;
      if w1.procs[pid] == w.procs[pid] {
        CallWaitsIffLockHeld(journal, w1, pid, labels[1..]);
        StaysPutTail(journal, w, pid, labels);
      }
    }
  }

  lemma StaysPutTail(journal: nat, w: World, pid: Pid, labels: seq<Label>)
    requires labels != [] && pid in w.procs
    requires var w1 := Next(journal, w, labels[0]); pid in w1.procs && w1.procs[pid] == w.procs[pid]
    ensures StaysPut(journal, w, pid, labels) <==> StaysPut(journal, Next(journal, w, labels[0]), pid, labels[1..])
  {
    var w1 := Next(journal, w, labels[0]);
    assert forall k :: 1 <= k <= |labels| ==> labels[..k][1..] == labels[1..][..k - 1];
    assert forall k :: 1 <= k <= |labels| ==>
      Exec(journal, w, labels[..k]) == Exec(journal, w1, labels[1..][..k - 1]);
    assert Exec(journal, w, labels[..0]) == w;
    if StaysPut(journal, w, pid, labels) {
      forall k | 0 <= k <= |labels[1..]|
        ensures var w' := Exec(journal, w1, labels[1..][..k]); pid in w'.procs && w'.procs[pid] == w1.procs[pid]
      {
        assert labels[..k + 1][1..] == labels[1..][..k];
        assert Exec(journal, w, labels[..k + 1]) == Exec(journal, w1, labels[1..][..k]);
      }
    }
  }

  // ----- CREATE DATABASE

  ghost predicate Owns(w: World, pid: Pid, n: Name) {
    pid in w.procs && w.procs[pid].slot == n
  }

  /** The processes that own the slot share one coordination database. */
  ghost predicate SameAuthority(w: World, n: Name) {
    forall p, q :: Owns(w, p, n) && Owns(w, q, n) ==> w.procs[p].coordination == w.procs[q].coordination
  }

  ghost predicate SoleOwner(w: World, n: Name) {
    forall p, q :: Owns(w, p, n) && Owns(w, q, n) ==> p == q
  }

  /** No process of the slot loses its lock session in the run. */
  ghost predicate KeepsSessions(w: World, labels: seq<Label>, n: Name) {
    forall i :: 0 <= i < |labels| && labels[i].LoseLock? ==> !Owns(w, labels[i].pid, n)
  }

  /** What keeps the processes of a slot apart: there is one, or they share an authority and keep their sessions. */
  ghost predicate SafeRun(w: World, labels: seq<Label>, n: Name) {
    SoleOwner(w, n) || (SameAuthority(w, n) && KeepsSessions(w, labels, n))
  }

  ghost predicate Guarded(w: World, n: Name) {
    SoleOwner(w, n) || (SameAuthority(w, n) && forall pid :: pid in w.lost ==> !Owns(w, pid, n))
  }

  /** What the holder has established about its slot. */
  ghost predicate Established(journal: nat, pc: Pc, db: Option<Db>) {
    && (pc == EnsureCreate ==> db.None?)
    && (pc == MigrateAll ==> db.Some?)
    && (pc == ReleaseOk ==> db.Some? && Migrated(journal, db.value) == db.value)
  }

  /** While the slot is guarded, what the holder established about it stays true until it acts. */
  ghost predicate SlotSound(journal: nat, w: World, n: Name) {
    forall pid :: pid in w.procs && w.procs[pid].slot == n ==> Established(journal, w.procs[pid].pc, Lookup(w.dbs, n))
  }

  /**
   * A step keeps what its process established; CREATE reaches the server from EnsureCreate only,
   * and makes the database if it was missing.
   */
  lemma MoveRespectsSlot(journal: nat, p: Proc, db: Option<Db>, lockFree: bool, fault: bool)
    requires Established(journal, p.pc, db)
    ensures var m := LocalStep(journal, p, db, lockFree, fault);
      && Established(journal, m.pc, m.db)
      && (m.issued ==> db.None? && m.db.Some?)
      && (db.None? && m.db.Some? ==> m.issued)
  {
  }

  lemma StepKeepsOwners(journal: nat, w: World, l: Label, n: Name)
    ensures forall pid :: Owns(Next(journal, w, l), pid, n) <==> Owns(w, pid, n)
    ensures SameAuthority(Next(journal, w, l), n) <==> SameAuthority(w, n)
  {
    var w' := Next(journal, w, l);
    assert w'.procs.Keys == w.procs.Keys;
    assert forall p :: p in w.procs ==>
      w'.procs[p].slot == w.procs[p].slot && w'.procs[p].coordination == w.procs[p].coordination;
  }

  lemma StepKeepsGuard(journal: nat, w: World, labels: seq<Label>, n: Name)
    requires labels != [] && Guarded(w, n) && SafeRun(w, labels, n)
    ensures Guarded(Next(journal, w, labels[0]), n) && SafeRun(Next(journal, w, labels[0]), labels[1..], n)
  {
    var w' := Next(journal, w, labels[0]);
    StepKeepsOwners(journal, w, labels[0], n);
    assert labels[0].LoseLock? || w'.lost <= w.lost;
    forall i | 0 <= i < |labels[1..]| && labels[1..][i].LoseLock? && KeepsSessions(w, labels, n)
      ensures !Owns(w', labels[1..][i].pid, n)
    {
      assert labels[i + 1] == labels[1..][i];
    }
  }

  /** The database of the slot changes only by a step of one of its processes inside. */
  lemma SlotChangedInside(journal: nat, w: World, pid: Pid, fault: bool, n: Name)
    requires pid in w.procs
    ensures Lookup(Next(journal, w, Step(pid, fault)).dbs, n) != Lookup(w.dbs, n) ==>
      w.procs[pid].slot == n && Critical(w.procs[pid].pc)
  {
    var p := w.procs[pid];
    MoveRespectsLock(journal, p, Lookup(w.dbs, p.slot), p.coordination !in w.locks, fault);
  }

  /** Of the processes of a guarded slot at most one is inside. */
  lemma OneOwnerInside(w: World, n: Name, p: Pid, q: Pid)
    requires LockSound(w) && Guarded(w, n) && Owns(w, p, n) && Owns(w, q, n)
    requires Critical(w.procs[p].pc) && Critical(w.procs[q].pc)
    ensures p == q
  {
  }

  lemma OthersKeepEstablished(journal: nat, w: World, l: Label, n: Name, pid: Pid)
    requires LockSound(w) && Guarded(w, n) && SlotSound(journal, w, n) && Owns(w, pid, n)
    requires l.Step? && l.pid in w.procs && l.pid != pid
    ensures Established(journal, w.procs[pid].pc, Lookup(Next(journal, w, l).dbs, n))
  {
    SlotChangedInside(journal, w, l.pid, l.fault, n);
    assert Established(journal, w.procs[pid].pc, Lookup(w.dbs, n));
    if Critical(w.procs[pid].pc) && Critical(w.procs[l.pid].pc) && w.procs[l.pid].slot == n {
      OneOwnerInside(w, n, pid, l.pid);
    }
  }

  lemma StepKeepsSlot(journal: nat, w: World, l: Label, n: Name)
    requires LockSound(w) && Guarded(w, n) && SlotSound(journal, w, n)
    ensures SlotSound(journal, Next(journal, w, l), n)
  {
    if l.Step? && l.pid in w.procs {
      var w' := Next(journal, w, l);
      forall pid | pid in w'.procs && w'.procs[pid].slot == n
        ensures Established(journal, w'.procs[pid].pc, Lookup(w'.dbs, n))
      {
        if pid == l.pid {
          var p := w.procs[pid];
          assert Established(journal, p.pc, Lookup(w.dbs, n));
          MoveRespectsSlot(journal, p, Lookup(w.dbs, n), p.coordination !in w.locks, l.fault);
        } else {
          OthersKeepEstablished(journal, w, l, n, pid);
        }
      }
    }
  }

  lemma {:induction false} RunKeepsSlot(journal: nat, w: World, labels: seq<Label>, n: Name)
    requires LockSound(w) && MemoSound(w) && Guarded(w, n) && SafeRun(w, labels, n) && SlotSound(journal, w, n)
    ensures LockSound(Exec(journal, w, labels)) && MemoSound(Exec(journal, w, labels))
    ensures SlotSound(journal, Exec(journal, w, labels), n)
    decreases |labels|
  {
    if labels != [] {
      StepKeepsLock(journal, w, labels[0]);
      StepKeepsMemo(journal, w, labels[0]);
      StepKeepsGuard(journal, w, labels, n);
      StepKeepsSlot(journal, w, labels[0], n);
      RunKeepsSlot(journal, Next(journal, w, labels[0]), labels[1..], n);
    }
  }

  /** CREATE DATABASE never collides: the database the holder is about to create is missing. */
  lemma CreateNeverCollides(journal: nat, w0: World, labels: seq<Label>, pid: Pid)
    requires Initial(w0)
    requires var w := Exec(journal, w0, labels);
      pid in w.procs && w.procs[pid].pc == EnsureCreate && SafeRun(w0, labels, w.procs[pid].slot)
    ensures var w := Exec(journal, w0, labels); w.procs[pid].slot !in w.dbs
  {
    RunKeepsSlot(journal, w0, labels, Exec(journal, w0, labels).procs[pid].slot);
  }

  function Occurrences(log: seq<Name>, n: Name): nat {
    if log == [] then 0 else (if log[|log| - 1] == n then 1 else 0) + Occurrences(log[..|log| - 1], n)
  }

  function Existing(dbs: map<Name, Db>, n: Name): nat {
    if n in dbs then 1 else 0
  }

  lemma OccurrencesSnoc(log: seq<Name>, x: Name, n: Name)
    ensures Occurrences(log + [x], n) == Occurrences(log, n) + if x == n then 1 else 0
  {
    assert (log + [x])[..|log|] == log;
  }

  /** Databases of the name, plus those dropped, minus the CREATE statements issued. */
  function Balance(w: World, n: Name): int {
    Existing(w.dbs, n) + Occurrences(w.drops, n) - Occurrences(w.creates, n)
  }

  /** With a sound slot every CREATE issued makes a database, so the balance stays. */
  lemma StepKeepsBalance(journal: nat, w: World, l: Label, n: Name)
    requires SlotSound(journal, w, n)
    ensures Balance(Next(journal, w, l), n) == Balance(w, n)
  {
    if l.Step? && l.pid in w.procs {
      var p := w.procs[l.pid];
      var m := MoveOf(journal, w, l.pid, l.fault);
      if p.slot == n {
        assert Established(journal, p.pc, Lookup(w.dbs, n));
        MoveRespectsSlot(journal, p, Lookup(w.dbs, n), p.coordination !in w.locks, l.fault);
      }
      LogsBalance(w, Next(journal, w, l), p.slot, m, n);
    }
  }

  /** What the logs and the catalog gain when one move of a process of `slot` is entered. */
  lemma LogsBalance(w: World, w': World, slot: Name, m: Move, n: Name)
    requires w'.dbs == if m.db.Some? then w.dbs[slot := m.db.value] else w.dbs - {slot}
    requires w'.creates == if m.issued then w.creates + [slot] else w.creates
    requires w'.drops == if m.db.None? && slot in w.dbs then w.drops + [slot] else w.drops
    requires slot == n ==> (m.issued <==> n !in w.dbs && m.db.Some?)
    ensures Balance(w', n) == Balance(w, n)
  {
    OccurrencesSnoc(w.creates, slot, n);
    OccurrencesSnoc(w.drops, slot, n);
    assert slot != n ==> (n in w'.dbs <==> n in w.dbs);
    assert slot == n ==> (n in w'.dbs <==> m.db.Some?);
    assert Existing(w'.dbs, n) - Existing(w.dbs, n)
        == if slot != n then 0 else (if m.db.Some? then 1 else 0) - (if n in w.dbs then 1 else 0);
  }

  lemma {:induction false} RunKeepsBalance(journal: nat, w: World, labels: seq<Label>, n: Name)
    requires LockSound(w) && MemoSound(w) && Guarded(w, n) && SafeRun(w, labels, n) && SlotSound(journal, w, n)
    ensures Balance(Exec(journal, w, labels), n) == Balance(w, n)
    decreases |labels|
  {
    if labels != [] {
      StepKeepsLock(journal, w, labels[0]);
      StepKeepsMemo(journal, w, labels[0]);
      StepKeepsGuard(journal, w, labels, n);
      StepKeepsSlot(journal, w, labels[0], n);
      StepKeepsBalance(journal, w, labels[0], n);
      RunKeepsBalance(journal, Next(journal, w, labels[0]), labels[1..], n);
    }
  }

  ghost predicate NoDrops(labels: seq<Label>) {
    forall i :: 0 <= i < |labels| ==> !labels[i].CallDrop?
  }

  ghost predicate NobodyDrops(w: World) {
    forall pid :: pid in w.procs ==> w.procs[pid].pc != AwaitDropLock && w.procs[pid].pc != DropDatabase
  }

  lemma {:induction false} NoDropsLogged(journal: nat, w: World, labels: seq<Label>)
    requires NobodyDrops(w) && NoDrops(labels)
    ensures Exec(journal, w, labels).drops == w.drops
    decreases |labels|
  {
    if labels != [] {
      assert NobodyDrops(Next(journal, w, labels[0]));
      NoDropsLogged(journal, Next(journal, w, labels[0]), labels[1..]);
    }
  }

  /**
   * In a safe run the CREATE statements issued for a slot are accounted for by its drops and
   * by what exists; without drops there is at most one, and none if it existed.
   */
  lemma CreatedAtMostOnce(journal: nat, w0: World, labels: seq<Label>, n: Name)
    requires Initial(w0) && SafeRun(w0, labels, n)
    ensures var w := Exec(journal, w0, labels);
      && Occurrences(w.creates, n) + Existing(w0.dbs, n) == Occurrences(w.drops, n) + Existing(w.dbs, n)
      && (NoDrops(labels) ==> Occurrences(w.creates, n) + Existing(w0.dbs, n) <= 1)
  {
    RunKeepsBalance(journal, w0, labels, n);
    if NoDrops(labels) {
      NoDropsLogged(journal, w0, labels);
    }
  }

  // ----- what a successful bootstrap leaves behind

  /** Migrating again would change nothing. */
  ghost predicate Settled(journal: nat, dbs: map<Name, Db>, n: Name) {
    n in dbs && Migrated(journal, dbs[n]) == dbs[n]
  }

  /** The initial states of a slot that a bootstrap brings to the journal. */
  ghost predicate Adoptable(journal: nat, dbs: map<Name, Db>, n: Name) {
    n in dbs ==> dbs[n].migrations == journal || (dbs[n].migrations < journal && !dbs[n].orphanTables)
  }

  /** All a run without drops can make of a slot. */
  ghost predicate SlotEvolved(journal: nat, before: map<Name, Db>, after: map<Name, Db>, n: Name) {
    if n in before then
      n in after && (after[n] == before[n] || after[n] == Migrated(journal, before[n]))
    else
      n in after ==> after[n] == Db(0, false) || after[n] == Db(journal, false)
  }

  ghost predicate ProcProgress(journal: nat, dbs: map<Name, Db>, p: Proc) {
    && p.pc != AwaitDropLock && p.pc != DropDatabase
    && (p.pc == ReleaseOk || p.memo == Resolved ==> Settled(journal, dbs, p.slot))
  }

  ghost predicate Progress(journal: nat, start: map<Name, Db>, w: World) {
    && (forall n :: SlotEvolved(journal, start, w.dbs, n))
    && (forall pid :: pid in w.procs ==> ProcProgress(journal, w.dbs, w.procs[pid]))
  }

  /** Without a drop a step creates the slot empty, migrates it, or leaves it; success needs a settled slot. */
  lemma MoveRespectsProgress(journal: nat, p: Proc, db: Option<Db>, lockFree: bool, fault: bool)
    requires p.pc != AwaitDropLock && p.pc != DropDatabase
    requires p.pc == ReleaseOk || p.memo == Resolved ==> db.Some? && Migrated(journal, db.value) == db.value
    ensures var m := LocalStep(journal, p, db, lockFree, fault);
      && m.pc != AwaitDropLock && m.pc != DropDatabase
      && (m.db == db || (db.None? && m.db == Some(Db(0, false)))
          || (db.Some? && m.db == Some(Migrated(journal, db.value))))
      && (m.pc == ReleaseOk || m.memo == Resolved ==> m.db.Some? && Migrated(journal, m.db.value) == m.db.value)
  {
  }

  lemma SettledStays(journal: nat, w: World, w': World, pid: Pid, n: Name)
    requires pid in w.procs && Settled(journal, w.dbs, n)
    requires var slot := w.procs[pid].slot;
      var db, db' := Lookup(w.dbs, slot), Lookup(w'.dbs, slot);
      && (forall k :: k != slot ==> Lookup(w'.dbs, k) == Lookup(w.dbs, k))
      && (db' == db || db.None? || (db.Some? && db' == Some(Migrated(journal, db.value))))
    ensures Settled(journal, w'.dbs, n)
  {
    assert Lookup(w'.dbs, n) == Lookup(w.dbs, n);
  }

  lemma StepKeepsProgress(journal: nat, start: map<Name, Db>, w: World, l: Label)
    requires Progress(journal, start, w) && !l.CallDrop?
    ensures Progress(journal, start, Next(journal, w, l))
  {
    if l.Step? && l.pid in w.procs {
      var p := w.procs[l.pid];
      var w' := Next(journal, w, l);
      assert ProcProgress(journal, w.dbs, p);
      MoveRespectsProgress(journal, p, Lookup(w.dbs, p.slot), p.coordination !in w.locks, l.fault);
      forall n
        ensures SlotEvolved(journal, start, w'.dbs, n)
      {
        assert SlotEvolved(journal, start, w.dbs, n);
      }
      forall pid | pid in w'.procs
        ensures ProcProgress(journal, w'.dbs, w'.procs[pid])
      {
        if pid != l.pid {
          assert ProcProgress(journal, w.dbs, w.procs[pid]);
          if Settled(journal, w.dbs, w.procs[pid].slot) {
            SettledStays(journal, w, w', l.pid, w.procs[pid].slot);
          }
        }
      }
    }
  }

  lemma {:induction false} RunKeepsProgress(journal: nat, start: map<Name, Db>, w: World, labels: seq<Label>)
    requires Progress(journal, start, w) && NoDrops(labels)
    ensures Progress(journal, start, Exec(journal, w, labels))
    decreases |labels|
  {
    if labels != [] {
      StepKeepsProgress(journal, start, w, labels[0]);
      RunKeepsProgress(journal, start, Next(journal, w, labels[0]), labels[1..]);
    }
  }

  /**
   * Over every interleaving without drops: once a process has bootstrapped, its slot
   * exists, and it holds exactly the journal's migrations if and only if the slot was
   * adoptable to begin with (missing, up to date, or behind with no unaccounted tables).
   */
  lemma SuccessLeavesJournalIffAdoptable(journal: nat, w0: World, labels: seq<Label>, pid: Pid)
    requires Initial(w0) && NoDrops(labels)
    requires var w := Exec(journal, w0, labels); pid in w.procs && w.procs[pid].memo == Resolved
    ensures var w := Exec(journal, w0, labels);
      var slot := w.procs[pid].slot;
      && slot in w.dbs
      && (w.dbs[slot].migrations == journal <==> Adoptable(journal, w0.dbs, slot))
  {
    RunKeepsProgress(journal, w0.dbs, w0, labels);
    var w := Exec(journal, w0, labels);
    assert SlotEvolved(journal, w0.dbs, w.dbs, w.procs[pid].slot);
  }

  /**
   * How a call ends, in any run, with drops, lost sessions and whatever else interleaves:
   * memoized exactly when its last step was a ready probe or a clean release; otherwise
   * forgotten, so that the next call starts over. After a ready probe its slot is settled at
   * that moment, and after a clean release too if the run was safe for the slot.
   */
  lemma CallEndsMemoizedIffReady(journal: nat, w0: World, labels: seq<Label>, l: Label, pid: Pid)
    requires Initial(w0)
    requires var w := Exec(journal, w0, labels);
      pid in w.procs && w.procs[pid].memo == Pending && Next(journal, w, l).procs[pid].pc == Out
    ensures var w := Exec(journal, w0, labels);
      var w' := Next(journal, w, l);
      var p := w.procs[pid];
      && l.Step? && l.pid == pid
      && (w'.procs[pid].memo == Resolved <==>
            (p.pc == CheckCount && !l.fault && p.slot in w.dbs && w.dbs[p.slot].migrations == journal)
            || (p.pc == ReleaseOk && !l.fault))
      && (w'.procs[pid].memo == Resolved && (p.pc == CheckCount || SafeRun(w0, labels, p.slot)) ==>
            Settled(journal, w'.dbs, p.slot))
      && (w'.procs[pid].memo != Resolved ==>
            w'.procs[pid].memo == Absent && Next(journal, w', Call(pid)).procs[pid].pc == CheckExists)
  {
    var w := Exec(journal, w0, labels);
    RunKeepsLock(journal, w0, labels);
    assert MemoFits(w.procs[pid].pc, w.procs[pid].memo);
    if SafeRun(w0, labels, w.procs[pid].slot) {
      SafeRunEstablishes(journal, w0, labels, pid);
    }
  }

  lemma SafeRunEstablishes(journal: nat, w0: World, labels: seq<Label>, pid: Pid)
    requires Initial(w0)
    requires var w := Exec(journal, w0, labels); pid in w.procs && SafeRun(w0, labels, w.procs[pid].slot)
    ensures var w := Exec(journal, w0, labels);
      Established(journal, w.procs[pid].pc, Lookup(w.dbs, w.procs[pid].slot))
  {
    RunKeepsSlot(journal, w0, labels, Exec(journal, w0, labels).procs[pid].slot);
  }

  // ----- runs of a few steps

  lemma {:induction false} ExecConcat(journal: nat, w: World, a: seq<Label>, b: seq<Label>)
    ensures Exec(journal, w, a + b) == Exec(journal, Exec(journal, w, a), b)
    decreases |a|
  {
    if a == [] {
      assert a + b == b;
    } else {
      assert (a + b)[1..] == a[1..] + b;
      ExecConcat(journal, Next(journal, w, a[0]), a[1..], b);
    }
  }

  lemma ExecFour(journal: nat, w: World, a: Label, b: Label, c: Label, d: Label)
    ensures Exec(journal, w, [a, b, c, d]) == Next(journal, Next(journal, Next(journal, Next(journal, w, a), b), c), d)
  {
    var w1 := Next(journal, w, a);
    var w2 := Next(journal, w1, b);
    var w3 := Next(journal, w2, c);
    assert [a, b, c, d][1..] == [b, c, d] && [b, c, d][1..] == [c, d] && [c, d][1..] == [d];
    assert Exec(journal, w3, [d]) == Exec(journal, Next(journal, w3, d), []);
    assert Exec(journal, w2, [c, d]) == Exec(journal, w3, [d]);
    assert Exec(journal, w1, [b, c, d]) == Exec(journal, w2, [c, d]);
  }

  // ----- drops

  function DropRun(pid: Pid): seq<Label> {
    [CallDrop(pid), Step(pid, false), Step(pid, false), Step(pid, false)]
  }

  lemma DropRunDrops(journal: nat, w: World, pid: Pid)
    requires pid in w.procs && w.procs[pid].pc == Out && w.procs[pid].memo != Pending
    requires w.procs[pid].slot in w.dbs && w.procs[pid].coordination !in w.locks && pid !in w.lost
    ensures Exec(journal, w, DropRun(pid))
         == w.(dbs := w.dbs - {w.procs[pid].slot}, drops := w.drops + [w.procs[pid].slot])
  {
    var w1 := Next(journal, w, CallDrop(pid));
    var w2 := Next(journal, w1, Step(pid, false));
    var w3 := Next(journal, w2, Step(pid, false));
    var w4 := Next(journal, w3, Step(pid, false));
    ExecFour(journal, w, CallDrop(pid), Step(pid, false), Step(pid, false), Step(pid, false));
    assert w4.procs == w.procs && w4.locks == w.locks && w4.lost == w.lost && w4.dbs == w.dbs - {w.procs[pid].slot};
  }

  /**
   * Exactly when a dropped slot is bootstrapped again: in every reachable world, after another
   * process has dropped the slot, the next call of a process outside a call probes it again if
   * and only if the process holds no memo. With a memo it answers at once and nothing happens.
   */
  lemma DroppedSlotProbedIffNoMemo(journal: nat, w0: World, labels: seq<Label>, pid: Pid, dropper: Pid)
    requires Initial(w0)
    requires var w := Exec(journal, w0, labels);
      && pid in w.procs && w.procs[pid].pc == Out && dropper in w.procs && w.procs[dropper].pc == Out
      && w.procs[dropper].slot == w.procs[pid].slot && w.procs[pid].slot in w.dbs
      && w.procs[dropper].coordination !in w.locks
    ensures var w := Exec(journal, w0, labels);
      var dropped := Exec(journal, w, DropRun(dropper));
      var called := Next(journal, dropped, Call(pid));
      && w.procs[pid].slot !in dropped.dbs && pid in called.procs
      && (called.procs[pid].pc == CheckExists <==> w.procs[pid].memo == Absent)
      && (w.procs[pid].memo != Absent ==> w.procs[pid].memo == Resolved && called == dropped)
  {
    RunKeepsLock(journal, w0, labels);
    var w := Exec(journal, w0, labels);
    assert MemoFits(w.procs[pid].pc, w.procs[pid].memo) && MemoFits(w.procs[dropper].pc, w.procs[dropper].memo);
    DropRunDrops(journal, w, dropper);
  }

  // ----- two coordination databases

  function Enter(pid: Pid): seq<Label> {
    [Call(pid), Step(pid, false), Step(pid, false), Step(pid, false), Step(pid, false)]
  }

  lemma ExecFive(journal: nat, w: World, a: Label, b: Label, c: Label, d: Label, e: Label)
    ensures Exec(journal, w, [a, b, c, d, e])
         == Next(journal, Next(journal, Next(journal, Next(journal, Next(journal, w, a), b), c), d), e)
  {
    ExecConcat(journal, w, [a, b, c, d], [e]);
    ExecFour(journal, w, a, b, c, d);
    assert [a, b, c, d] + [e] == [a, b, c, d, e];
    assert Exec(journal, Exec(journal, w, [a, b, c, d]), [e])
        == Exec(journal, Next(journal, Exec(journal, w, [a, b, c, d]), e), []);
  }

  /** A step that leaves the slot as it is changes the process and perhaps the lock. */
  lemma QuietStep(journal: nat, w: World, pid: Pid)
    requires pid in w.procs
    requires var m := MoveOf(journal, w, pid, false); m.db == Lookup(w.dbs, w.procs[pid].slot) && !m.issued
    ensures var m := MoveOf(journal, w, pid, false);
      var p := w.procs[pid];
      var w' := Next(journal, w, Step(pid, false));
      && w'.procs == w.procs[pid := p.(pc := m.pc, memo := m.memo)]
      && w'.dbs == w.dbs && w'.creates == w.creates && w'.drops == w.drops
      && w'.lost == (if m.lock == Keep then w.lost else w.lost - {pid})
      && w'.locks == LocksAfter(w, pid, m.lock)
  {
  }

  function AtPc(w: World, pid: Pid, pc: Pc): World
    requires pid in w.procs
  {
    w.(procs := w.procs[pid := w.procs[pid].(pc := pc, memo := Pending)])
  }

  /** The two probes of a missing slot, before the lock. */
  lemma EnterWaits(journal: nat, w: World, pid: Pid)
    requires pid in w.procs && w.procs[pid].pc == Out && w.procs[pid].memo == Absent && w.procs[pid].slot !in w.dbs
    ensures Next(journal, Next(journal, w, Call(pid)), Step(pid, false)) == AtPc(w, pid, AwaitLock)
  {
    QuietStep(journal, Next(journal, w, Call(pid)), pid);
  }

  /** Taking the free lock, the re-check and the lookup of a missing slot. */
  lemma EnterTakes(journal: nat, w: World, pid: Pid)
    requires pid in w.procs && w.procs[pid].pc == AwaitLock && w.procs[pid].memo == Pending
    requires w.procs[pid].slot !in w.dbs && w.procs[pid].coordination !in w.locks && pid !in w.lost
    ensures Next(journal, Next(journal, Next(journal, w, Step(pid, false)), Step(pid, false)), Step(pid, false))
         == AtPc(w, pid, EnsureCreate).(locks := w.locks[w.procs[pid].coordination := pid])
  {
    QuietStep(journal, w, pid);
    var w1 := Next(journal, w, Step(pid, false));
    QuietStep(journal, w1, pid);
    QuietStep(journal, Next(journal, w1, Step(pid, false)), pid);
  }

  lemma EnterReachesCreate(journal: nat, w: World, pid: Pid)
    requires pid in w.procs && w.procs[pid].pc == Out && w.procs[pid].memo == Absent
    requires w.procs[pid].slot !in w.dbs && w.procs[pid].coordination !in w.locks && pid !in w.lost
    ensures Exec(journal, w, Enter(pid))
         == AtPc(w, pid, EnsureCreate).(locks := w.locks[w.procs[pid].coordination := pid])
  {
    EnterWaits(journal, w, pid);
    EnterTakes(journal, AtPc(w, pid, AwaitLock), pid);
    ExecFive(journal, w, Call(pid), Step(pid, false), Step(pid, false), Step(pid, false), Step(pid, false));
  }

  /** Somebody is about to create a database that exists. */
  ghost predicate Collides(w: World, n: Name) {
    exists pid :: pid in w.procs && w.procs[pid].slot == n && w.procs[pid].pc == EnsureCreate && n in w.dbs
  }

  /** A process that has not begun, with its lock free. */
  ghost predicate Ready(w: World, pid: Pid) {
    && pid in w.procs && w.procs[pid].pc == Out && w.procs[pid].memo == Absent
    && w.procs[pid].coordination !in w.locks && pid !in w.lost
  }

  /** The first process enters, perhaps loses its lock session, and the second one enters. */
  function EnterBoth(p: Pid, q: Pid, lose: bool): seq<Label> {
    Enter(p) + ((if lose then [LoseLock(p)] else []) + Enter(q))
  }

  /** Both at CREATE of the missing slot, under different locks or the first without its own. */
  lemma BothReachCreate(journal: nat, w: World, p: Pid, q: Pid, lose: bool)
    requires Ready(w, p) && Ready(w, q) && p != q
    requires lose || w.procs[p].coordination != w.procs[q].coordination
    requires w.procs[p].slot == w.procs[q].slot && w.procs[p].slot !in w.dbs
    ensures var w' := Exec(journal, w, EnterBoth(p, q, lose));
      && p in w'.procs && q in w'.procs && w'.procs[p] == w.procs[p].(pc := EnsureCreate, memo := Pending)
      && w'.procs[q] == w.procs[q].(pc := EnsureCreate, memo := Pending)
      && w'.dbs == w.dbs && w'.creates == w.creates
  {
    EnterReachesCreate(journal, w, p);
    var w1 := Exec(journal, w, Enter(p));
    var middle := if lose then [LoseLock(p)] else [];
    var w2 := Exec(journal, w1, middle);
    if lose {
      ExecSnoc(journal, w1, [], LoseLock(p));
      assert [] + [LoseLock(p)] == middle;
      assert w2 == Next(journal, w1, LoseLock(p));
    }
    EnterReachesCreate(journal, w2, q);
    ExecConcat(journal, w, Enter(p), middle + Enter(q));
    ExecConcat(journal, w1, middle, Enter(q));
  }

  lemma BothCreate(journal: nat, w: World, p: Pid, q: Pid)
    requires p in w.procs && q in w.procs && p != q && w.procs[p].slot == w.procs[q].slot && w.procs[p].slot !in w.dbs
    requires w.procs[p].pc == EnsureCreate && w.procs[q].pc == EnsureCreate
    ensures var n := w.procs[p].slot;
      var w1 := Next(journal, w, Step(p, false));
      var w2 := Next(journal, w1, Step(q, false));
      && Collides(w1, n) && q in w2.procs && w2.procs[q].pc == ReleaseFailed
      && w2.creates == w.creates + [n] + [n]
  {
    var w1 := Next(journal, w, Step(p, false));
    assert w1.procs[q] == w.procs[q] && w.procs[q].slot in w1.dbs;
  }

  lemma ExecSnoc(journal: nat, w: World, labels: seq<Label>, l: Label)
    ensures Exec(journal, w, labels + [l]) == Next(journal, Exec(journal, w, labels), l)
  {
    ExecConcat(journal, w, labels, [l]);
    assert Exec(journal, Exec(journal, w, labels), [l])
        == Exec(journal, Next(journal, Exec(journal, w, labels), l), []);
  }

  /** Some run gets a process to create the slot while it exists; without lost sessions of the slot, if `live`. */
  ghost predicate CollisionReachable(journal: nat, w0: World, n: Name, live: bool) {
    exists labels :: (live ==> KeepsSessions(w0, labels, n)) && Collides(Exec(journal, w0, labels), n)
  }

  lemma CollisionFromMissing(journal: nat, w: World, p: Pid, q: Pid, lose: bool)
    requires Ready(w, p) && Ready(w, q) && p != q
    requires lose || w.procs[p].coordination != w.procs[q].coordination
    requires w.procs[p].slot == w.procs[q].slot && w.procs[p].slot !in w.dbs
    ensures Collides(Exec(journal, w, EnterBoth(p, q, lose) + [Step(p, false)]), w.procs[p].slot)
  {
    BothReachCreate(journal, w, p, q, lose);
    BothCreate(journal, Exec(journal, w, EnterBoth(p, q, lose)), p, q);
    ExecSnoc(journal, w, EnterBoth(p, q, lose), Step(p, false));
  }

  /** Two owners that can be inside together, in a run from the start. */
  lemma TwoOwnersCollide(journal: nat, w0: World, p: Pid, q: Pid, lose: bool)
    requires Initial(w0) && p in w0.procs && q in w0.procs && w0.procs[p].slot == w0.procs[q].slot && p != q
    requires lose || w0.procs[p].coordination != w0.procs[q].coordination
    ensures CollisionReachable(journal, w0, w0.procs[p].slot, !lose)
  {
    var n := w0.procs[p].slot;
    var collide := EnterBoth(p, q, lose) + [Step(p, false)];
    if n in w0.dbs {
      DropRunDrops(journal, w0, p);
      CollisionFromMissing(journal, Exec(journal, w0, DropRun(p)), p, q, lose);
      ExecConcat(journal, w0, DropRun(p), collide);
      assert !lose ==> KeepsSessions(w0, DropRun(p) + collide, n);
      assert Collides(Exec(journal, w0, DropRun(p) + collide), n);
    } else {
      CollisionFromMissing(journal, w0, p, q, lose);
      assert !lose ==> KeepsSessions(w0, collide, n);
      assert Collides(Exec(journal, w0, collide), n);
    }
  }

  lemma SafeRunNeverCollides(journal: nat, w0: World, labels: seq<Label>, n: Name)
    requires Initial(w0) && SafeRun(w0, labels, n)
    ensures !Collides(Exec(journal, w0, labels), n)
  {
    RunKeepsSlot(journal, w0, labels, n);
  }

  /**
   * Exactly when CREATE DATABASE of a slot can collide while its processes keep their lock
   * sessions: if and only if two of them use different coordination databases.
   */
  lemma CollisionIffAuthoritiesDiffer(journal: nat, w0: World, n: Name)
    requires Initial(w0)
    ensures CollisionReachable(journal, w0, n, true) <==> !SameAuthority(w0, n)
  {
    if SameAuthority(w0, n) && CollisionReachable(journal, w0, n, true) {
      var labels :| KeepsSessions(w0, labels, n) && Collides(Exec(journal, w0, labels), n);
      SafeRunNeverCollides(journal, w0, labels, n);
    }
    if !SameAuthority(w0, n) {
      var p, q :| Owns(w0, p, n) && Owns(w0, q, n) && w0.procs[p].coordination != w0.procs[q].coordination;
      TwoOwnersCollide(journal, w0, p, q, false);
    }
  }

  /** Over all runs, lost sessions included: if and only if the slot has two processes. */
  lemma CollisionIffTwoOwners(journal: nat, w0: World, n: Name)
    requires Initial(w0)
    ensures CollisionReachable(journal, w0, n, false) <==> !SoleOwner(w0, n)
  {
    if SoleOwner(w0, n) && CollisionReachable(journal, w0, n, false) {
      var labels :| Collides(Exec(journal, w0, labels), n);
      SafeRunNeverCollides(journal, w0, labels, n);
    }
    if !SoleOwner(w0, n) {
      var p, q :| Owns(w0, p, n) && Owns(w0, q, n) && p != q;
      TwoOwnersCollide(journal, w0, p, q, true);
    }
  }

  /** Some run without drops issues CREATE DATABASE for the slot twice; without lost sessions of the slot, if `live`. */
  ghost predicate CreatedTwice(journal: nat, w0: World, n: Name, live: bool) {
    exists labels ::
      && NoDrops(labels) && (live ==> KeepsSessions(w0, labels, n))
      && Occurrences(Exec(journal, w0, labels).creates, n) >= 2
  }

  lemma TwoOwnersCreateTwice(journal: nat, w0: World, p: Pid, q: Pid, lose: bool)
    requires Initial(w0) && p in w0.procs && q in w0.procs && w0.procs[p].slot == w0.procs[q].slot && p != q
    requires w0.procs[p].slot !in w0.dbs && (lose || w0.procs[p].coordination != w0.procs[q].coordination)
    ensures CreatedTwice(journal, w0, w0.procs[p].slot, !lose)
  {
    var n := w0.procs[p].slot;
    var enter := EnterBoth(p, q, lose);
    var labels := enter + [Step(p, false)] + [Step(q, false)];
    BothReachCreate(journal, w0, p, q, lose);
    TwoCreates(journal, w0, enter, p, q);
    assert NoDrops(labels) && (!lose ==> KeepsSessions(w0, labels, n));
  }

  lemma TwoCreates(journal: nat, w0: World, enter: seq<Label>, p: Pid, q: Pid)
    requires var w := Exec(journal, w0, enter);
      && p in w.procs && q in w.procs && p != q && w.procs[p].slot == w.procs[q].slot && w.procs[p].slot !in w.dbs
      && w.procs[p].pc == EnsureCreate && w.procs[q].pc == EnsureCreate
    ensures var n := Exec(journal, w0, enter).procs[p].slot;
      Occurrences(Exec(journal, w0, enter + [Step(p, false)] + [Step(q, false)]).creates, n) >= 2
  {
    var w := Exec(journal, w0, enter);
    var n := w.procs[p].slot;
    BothCreate(journal, w, p, q);
    ExecSnoc(journal, w0, enter, Step(p, false));
    ExecSnoc(journal, w0, enter + [Step(p, false)], Step(q, false));
    OccurrencesSnoc(w.creates, n, n);
    OccurrencesSnoc(w.creates + [n], n, n);
  }

  /**
   * A missing slot can get two CREATE statements without a drop, sessions kept, if and only if
   * two of its processes differ in authority; and with sessions lost, if and only if it has two.
   */
  lemma CreatedTwiceIff(journal: nat, w0: World, n: Name)
    requires Initial(w0) && n !in w0.dbs
    ensures CreatedTwice(journal, w0, n, true) <==> !SameAuthority(w0, n)
    ensures CreatedTwice(journal, w0, n, false) <==> !SoleOwner(w0, n)
  {
    if SameAuthority(w0, n) && CreatedTwice(journal, w0, n, true) {
      var labels :| NoDrops(labels) && KeepsSessions(w0, labels, n)
        && Occurrences(Exec(journal, w0, labels).creates, n) >= 2;
      CreatedAtMostOnce(journal, w0, labels, n);
    }
    if SoleOwner(w0, n) && CreatedTwice(journal, w0, n, false) {
      var labels :| NoDrops(labels) && Occurrences(Exec(journal, w0, labels).creates, n) >= 2;
      CreatedAtMostOnce(journal, w0, labels, n);
    }
    if !SameAuthority(w0, n) {
      var p, q :| Owns(w0, p, n) && Owns(w0, q, n) && w0.procs[p].coordination != w0.procs[q].coordination;
      TwoOwnersCreateTwice(journal, w0, p, q, false);
    }
    if !SoleOwner(w0, n) {
      var p, q :| Owns(w0, p, n) && Owns(w0, q, n) && p != q;
      TwoOwnersCreateTwice(journal, w0, p, q, true);
    }
  }
}
