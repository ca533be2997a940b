/**
 * One process's bootstrap call as the code runs it, against a server whose calls may
 * fail, and the proof that such a call is a run of the interleaved protocol.
 */
module BootstrapProcess {
  import opened Prelude
  import opened Bootstrap

  /** Which server calls fail during one bootstrap, in the order they are made. */
  datatype Faults = Faults(
    exists1: bool, count1: bool, lock: bool, exists2: bool, count2: bool, lookup: bool,
    create: bool, migrate: bool, release: bool)

  predicate Probed(journal: nat, db: Option<Db>, existsFault: bool, countFault: bool) {
    !existsFault && !countFault && db.Some? && db.value.migrations == journal
  }

  datatype Outcome = Outcome(ok: bool, db: Option<Db>)

  /** Ensure and migrate, then release. */
  function EnsureOutcome(journal: nat, db: Option<Db>, f: Faults): Outcome {
    if f.lookup || (db.None? && f.create) then Outcome(false, db)
    else
      var d := if db.Some? then db.value else Db(0, false);
      if f.migrate then Outcome(false, Some(d)) else Outcome(!f.release, Some(Migrated(journal, d)))
  }

  /** What happens once the lock is held. */
  function LockedOutcome(journal: nat, db: Option<Db>, f: Faults): Outcome {
    if Probed(journal, db, f.exists2, f.count2) then Outcome(!f.release, db) else EnsureOutcome(journal, db, f)
  }

  /** What a call without company comes to, from the state of its slot and the faults it meets. */
  function CallOutcome(journal: nat, db: Option<Db>, f: Faults): Outcome {
    if Probed(journal, db, f.exists1, f.count1) then Outcome(true, db)
    else if f.lock then Outcome(false, db)
    else LockedOutcome(journal, db, f)
  }

  const NO_FAULTS := Faults(false, false, false, false, false, false, false, false, false)

  /**
   * A success leaves a slot that migrating again would not change; a call only creates or
   * migrates; without faults it succeeds.
   */
  lemma CallOutcomeSettles(journal: nat, db: Option<Db>, f: Faults)
    ensures var o := CallOutcome(journal, db, f);
      && (o.ok ==> o.db.Some? && Migrated(journal, o.db.value) == o.db.value)
      && (|| o.db == db
          || o.db == Some(Migrated(journal, if db.Some? then db.value else Db(0, false)))
          || (db.None? && o.db == Some(Db(0, false))))
      && CallOutcome(journal, db, NO_FAULTS).ok
  {
  }

  class SlotServer {
    var dbs: map<Name, Db>
    var lockHeld: bool
    var creates: seq<Name>

    constructor (initial: map<Name, Db>)
      ensures dbs == initial && !lockHeld && creates == []
    {
      dbs, lockHeld, creates := initial, false, [];
    }

    /** Read-only probe: a database that exists and holds exactly the journal's migrations; errors mean no. */
    method IsBootstrapped(slot: Name, journal: nat, existsFault: bool, countFault: bool) returns (ready: bool)
      ensures ready <==> Probed(journal, Lookup(dbs, slot), existsFault, countFault)
    {
      if existsFault || slot !in dbs {
        return false;
      }
      ready := !countFault && dbs[slot].migrations == journal;
    }

    /** The caller holds the lifecycle lock. */
    method EnsureDatabaseExistsUnlocked(slot: Name, lookupFault: bool, createFault: bool) returns (ok: bool)
      requires lockHeld
      modifies this
      ensures lockHeld
      ensures ok <==> !lookupFault && (slot in old(dbs) || !createFault)
      ensures dbs == if ok && slot !in old(dbs) then old(dbs)[slot := Db(0, false)] else old(dbs)
      ensures creates == if ok && slot !in old(dbs) then old(creates) + [slot] else old(creates)
    {
      if lookupFault {
        return false;
      }
      if slot !in dbs {
        if createFault {
          return false;
        }
        dbs := dbs[slot := Db(0, false)];
        creates := creates + [slot];
      }
      ok := true;
    }

    method MigratePostgres(slot: Name, journal: nat, fault: bool) returns (ok: bool)
      requires lockHeld && slot in dbs
      modifies this
      ensures lockHeld && creates == old(creates) && ok == !fault
      ensures dbs == if ok then old(dbs)[slot := Migrated(journal, old(dbs)[slot])] else old(dbs)
    {
      ok := !fault;
      if ok {
        dbs := dbs[slot := Migrated(journal, dbs[slot])];
      }
    }
  }

  class WorkerProcess {
    var bootstrapped: set<Name>

    constructor ()
      ensures bootstrapped == {}
    {
      bootstrapped := {};
    }

    /**
     * A memoized slot costs nothing; otherwise the call comes to its outcome, frees the
     * lock on every path, is memoized exactly when it succeeds, creates the slot only
     * when missing, and touches no other database.
     */
    method EnsureBootstrapped(server: SlotServer, slot: Name, journal: nat, f: Faults) returns (ok: bool)
      requires !server.lockHeld
      requires forall n :: n in bootstrapped ==> Settled(journal, server.dbs, n)
      modifies this, server
      ensures !server.lockHeld
      ensures slot in old(bootstrapped) ==> ok && server.dbs == old(server.dbs)
      ensures slot !in old(bootstrapped) ==>
        Outcome(ok, Lookup(server.dbs, slot)) == CallOutcome(journal, Lookup(old(server.dbs), slot), f)
      ensures bootstrapped == if ok then old(bootstrapped) + {slot} else old(bootstrapped) - {slot}
      ensures forall n :: n in bootstrapped ==> Settled(journal, server.dbs, n)
      ensures forall n :: n != slot ==> Lookup(server.dbs, n) == Lookup(old(server.dbs), n)
      ensures server.creates ==
          if slot in server.dbs && slot !in old(server.dbs) then old(server.creates) + [slot] else old(server.creates)
    {
      if slot in bootstrapped {
        return true;
      }
      CallOutcomeSettles(journal, Lookup(server.dbs, slot), f);
      ok := BootstrapOnce(server, slot, journal, f);
      forall n | n in bootstrapped
        ensures Settled(journal, server.dbs, n)
      {
        assert Lookup(server.dbs, n) == Lookup(old(server.dbs), n);
      }
      if ok {
        bootstrapped := bootstrapped + {slot};
      }
    }

    method BootstrapOnce(server: SlotServer, slot: Name, journal: nat, f: Faults) returns (ok: bool)
      requires !server.lockHeld
      modifies server
      ensures !server.lockHeld
      ensures Outcome(ok, Lookup(server.dbs, slot)) == CallOutcome(journal, Lookup(old(server.dbs), slot), f)
      ensures forall n :: n != slot ==> Lookup(server.dbs, n) == Lookup(old(server.dbs), n)
      ensures server.creates ==
          if slot in server.dbs && slot !in old(server.dbs) then old(server.creates) + [slot] else old(server.creates)
    {
      ok := server.IsBootstrapped(slot, journal, f.exists1, f.count1);
      if ok {
        return;
      }
      if f.lock {
        return false;
      }
      server.lockHeld := true;
      ok := server.IsBootstrapped(slot, journal, f.exists2, f.count2);
      if !ok {
        ok := server.EnsureDatabaseExistsUnlocked(slot, f.lookup, f.create);
        if ok {
          ok := server.MigratePostgres(slot, journal, f.migrate);
        }
      }
      server.lockHeld := false;
      ok := ok && !f.release;
    }
  }

  // ----- the call as a run of the protocol

  /** A process, its slot and its lock, as far as the process alone changes them. */
  datatype Local = Local(proc: Proc, db: Option<Db>, lockFree: bool)

  function LocalNext(journal: nat, s: Local, fault: bool): Local {
    var m := LocalStep(journal, s.proc, s.db, s.lockFree, fault);
    Local(s.proc.(pc := m.pc, memo := m.memo), m.db,
          match m.lock case Keep => s.lockFree case Take => false case Free => true)
  }

  function LocalRun(journal: nat, s: Local, faults: seq<bool>): Local
    decreases |faults|
  {
    if faults == [] then s else LocalRun(journal, LocalNext(journal, s, faults[0]), faults[1..])
  }

  ghost function LocalOf(w: World, pid: Pid): Local
    requires pid in w.procs
  {
    var p := w.procs[pid];
    Local(p, Lookup(w.dbs, p.slot), p.coordination !in w.locks)
  }

  ghost function OwnSteps(journal: nat, w: World, pid: Pid, faults: seq<bool>): World
    decreases |faults|
  {
    if faults == [] then w else OwnSteps(journal, Next(journal, w, Step(pid, faults[0])), pid, faults[1..])
  }

  /** The steps of one process, seen from its side. */
  lemma {:induction false} OwnStepsAreLocalRun(journal: nat, w: World, pid: Pid, faults: seq<bool>)
    requires pid in w.procs && (w.procs[pid].coordination in w.locks ==> Holds(w, pid))
    ensures var w' := OwnSteps(journal, w, pid, faults);
      pid in w'.procs && LocalOf(w', pid) == LocalRun(journal, LocalOf(w, pid), faults)
    decreases |faults|
  {
    if faults != [] {
      var w1 := Next(journal, w, Step(pid, faults[0]));
      assert LocalOf(w1, pid) == LocalNext(journal, LocalOf(w, pid), faults[0]);
      OwnStepsAreLocalRun(journal, w1, pid, faults[1..]);
    }
  }

  /** The faults in the order the protocol's steps meet them, stage by stage from the last. */
  function FromEnsure(db: Option<Db>, f: Faults): seq<bool> {
    if f.lookup then [f.lookup, f.release]
    else if db.Some? then [f.lookup, f.migrate, f.release]
    else if f.create then [f.lookup, f.create, f.release]
    else [f.lookup, f.create, f.migrate, f.release]
  }

  /** A probe meets its second call only when the database was found. */
  function ProbeThen(db: Option<Db>, existsFault: bool, countFault: bool, rest: seq<bool>): seq<bool> {
    if existsFault || db.None? then [existsFault] + rest else [existsFault] + ([countFault] + rest)
  }

  function FromRecheck(journal: nat, db: Option<Db>, f: Faults): seq<bool> {
    ProbeThen(db, f.exists2, f.count2,
      if Probed(journal, db, f.exists2, f.count2) then [f.release] else FromEnsure(db, f))
  }

  function FromCheck(journal: nat, db: Option<Db>, f: Faults): seq<bool> {
    ProbeThen(db, f.exists1, f.count1,
      if Probed(journal, db, f.exists1, f.count1) then []
      else if f.lock then [f.lock] else [f.lock] + FromRecheck(journal, db, f))
  }

  lemma LocalRunCons(journal: nat, s: Local, fault: bool, rest: seq<bool>)
    ensures LocalRun(journal, s, [fault] + rest) == LocalRun(journal, LocalNext(journal, s, fault), rest)
  {
    assert ([fault] + rest)[1..] == rest;
  }

  function At(p: Proc, pc: Pc): Proc {
    p.(pc := pc, memo := Pending)
  }

  function Finished(p: Proc, o: Outcome): Local {
    Local(p.(pc := Out, memo := if o.ok then Resolved else Absent), o.db, true)
  }

  lemma ReleaseStage(journal: nat, p: Proc, db: Option<Db>, ok: bool, fault: bool)
    ensures LocalRun(journal, Local(At(p, if ok then ReleaseOk else ReleaseFailed), db, false), [fault])
         == Finished(p, Outcome(ok && !fault, db))
  {
    LocalRunCons(journal, Local(At(p, if ok then ReleaseOk else ReleaseFailed), db, false), fault, []);
    assert [fault] + [] == [fault];
  }

  lemma MigrateStage(journal: nat, p: Proc, d: Db, f: Faults)
    ensures LocalRun(journal, Local(At(p, MigrateAll), Some(d), false), [f.migrate, f.release])
         == Finished(p, if f.migrate then Outcome(false, Some(d)) else Outcome(!f.release, Some(Migrated(journal, d))))
  {
    LocalRunCons(journal, Local(At(p, MigrateAll), Some(d), false), f.migrate, [f.release]);
    assert [f.migrate] + [f.release] == [f.migrate, f.release];
    ReleaseStage(journal, p, if f.migrate then Some(d) else Some(Migrated(journal, d)), !f.migrate, f.release);
  }

  lemma CreateStage(journal: nat, p: Proc, f: Faults)
    ensures LocalRun(journal, Local(At(p, EnsureCreate), None, false),
                     if f.create then [f.create, f.release] else [f.create, f.migrate, f.release])
         == Finished(p, if f.create then Outcome(false, None)
                        else if f.migrate then Outcome(false, Some(Db(0, false)))
                        else Outcome(!f.release, Some(Migrated(journal, Db(0, false)))))
  {
    var s := Local(At(p, EnsureCreate), None, false);
    if f.create {
      LocalRunCons(journal, s, f.create, [f.release]);
      assert [f.create] + [f.release] == [f.create, f.release];
      ReleaseStage(journal, p, None, false, f.release);
    } else {
      LocalRunCons(journal, s, f.create, [f.migrate, f.release]);
      assert [f.create] + [f.migrate, f.release] == [f.create, f.migrate, f.release];
      MigrateStage(journal, p, Db(0, false), f);
    }
  }

  lemma EnsureStage(journal: nat, p: Proc, db: Option<Db>, f: Faults)
    ensures LocalRun(journal, Local(At(p, EnsureLookup), db, false), FromEnsure(db, f))
         == Finished(p, EnsureOutcome(journal, db, f))
  {
    var s := Local(At(p, EnsureLookup), db, false);
    if f.lookup {
      LocalRunCons(journal, s, f.lookup, [f.release]);
      assert [f.lookup] + [f.release] == FromEnsure(db, f);
      ReleaseStage(journal, p, db, false, f.release);
    } else if db.Some? {
      LocalRunCons(journal, s, f.lookup, [f.migrate, f.release]);
      assert [f.lookup] + [f.migrate, f.release] == FromEnsure(db, f);
      MigrateStage(journal, p, db.value, f);
    } else {
      var rest := if f.create then [f.create, f.release] else [f.create, f.migrate, f.release];
      LocalRunCons(journal, s, f.lookup, rest);
      assert [f.lookup] + rest == FromEnsure(db, f);
      CreateStage(journal, p, f);
    }
  }

  /** The two probing steps of the re-check, or of the precheck, whatever comes after them. */
  lemma ProbeStage(
    journal: nat, p: Proc, db: Option<Db>, first: bool, existsFault: bool, countFault: bool, rest: seq<bool>
  )
    ensures var ready := Probed(journal, db, existsFault, countFault);
      LocalRun(journal, Local(At(p, if first then CheckExists else RecheckExists), db, first),
               ProbeThen(db, existsFault, countFault, rest))
      == LocalRun(journal,
           if first && ready then Finished(p, Outcome(true, db))
           else Local(At(p, if first then AwaitLock else if ready then ReleaseOk else EnsureLookup), db, first), rest)
  {
    var s := Local(At(p, if first then CheckExists else RecheckExists), db, first);
    if existsFault || db.None? {
      LocalRunCons(journal, s, existsFault, rest);
    } else {
      LocalRunCons(journal, s, existsFault, [countFault] + rest);
      LocalRunCons(journal, LocalNext(journal, s, existsFault), countFault, rest);
    }
  }

  lemma RecheckStage(journal: nat, p: Proc, db: Option<Db>, f: Faults)
    ensures LocalRun(journal, Local(At(p, RecheckExists), db, false), FromRecheck(journal, db, f))
         == Finished(p, LockedOutcome(journal, db, f))
  {
    if Probed(journal, db, f.exists2, f.count2) {
      ProbeStage(journal, p, db, false, f.exists2, f.count2, [f.release]);
      ReleaseStage(journal, p, db, true, f.release);
    } else {
      ProbeStage(journal, p, db, false, f.exists2, f.count2, FromEnsure(db, f));
      EnsureStage(journal, p, db, f);
    }
  }

  lemma LockStage(journal: nat, p: Proc, db: Option<Db>, f: Faults)
    ensures LocalRun(journal, Local(At(p, AwaitLock), db, true),
            if f.lock then [f.lock] else [f.lock] + FromRecheck(journal, db, f))
         == Finished(p, if f.lock then Outcome(false, db) else LockedOutcome(journal, db, f))
  {
    var waiting := Local(At(p, AwaitLock), db, true);
    if f.lock {
      LocalRunCons(journal, waiting, f.lock, []);
      assert [f.lock] + [] == [f.lock];
    } else {
      LocalRunCons(journal, waiting, f.lock, FromRecheck(journal, db, f));
      RecheckStage(journal, p, db, f);
    }
  }

  /** From the first probe to the last release, the protocol's steps come to the call's outcome. */
  lemma CallIsLocalRun(journal: nat, p: Proc, db: Option<Db>, f: Faults)
    ensures LocalRun(journal, Local(At(p, CheckExists), db, true), FromCheck(journal, db, f))
         == Finished(p, CallOutcome(journal, db, f))
  {
    if Probed(journal, db, f.exists1, f.count1) {
      ProbeStage(journal, p, db, true, f.exists1, f.count1, []);
    } else {
      var rest := if f.lock then [f.lock] else [f.lock] + FromRecheck(journal, db, f);
      ProbeStage(journal, p, db, true, f.exists1, f.count1, rest);
      LockStage(journal, p, db, f);
    }
  }

  /**
   * Every bootstrap call is a run of the interleaved protocol in which nobody else moves:
   * from any world where the process begins a call with the lock free, the steps with the
   * call's faults end outside, with the lock free again, the memo kept exactly on success,
   * and the slot as the call leaves it.
   */
  lemma CallIsProtocolRun(journal: nat, w: World, pid: Pid, f: Faults)
    requires pid in w.procs && w.procs[pid].pc == Out && w.procs[pid].memo == Absent
    requires w.procs[pid].coordination !in w.locks
    ensures var p := w.procs[pid];
      var o := CallOutcome(journal, Lookup(w.dbs, p.slot), f);
      var w' := OwnSteps(journal, Next(journal, w, Call(pid)), pid, FromCheck(journal, Lookup(w.dbs, p.slot), f));
      && pid in w'.procs && w'.procs[pid] == p.(memo := if o.ok then Resolved else Absent)
      && Lookup(w'.dbs, p.slot) == o.db && p.coordination !in w'.locks
  {
    var w1 := Next(journal, w, Call(pid));
    var p := w.procs[pid];
    assert LocalOf(w1, pid) == Local(At(p, CheckExists), Lookup(w.dbs, p.slot), true);
    OwnStepsAreLocalRun(journal, w1, pid, FromCheck(journal, Lookup(w.dbs, p.slot), f));
    CallIsLocalRun(journal, p, Lookup(w.dbs, p.slot), f);
  }
}
