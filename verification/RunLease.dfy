/**
 * Run-level leases over the slot databases of one or more PostgreSQL servers: whole
 * test invocations, their worker processes, and the truncations those perform.
 */
module RunLease {
  import opened Prelude
  import opened Text
  import opened TestScope

  datatype Suite = Api | DbPackage

  type Server = string

  /** Execution-slot ids as the runner injects them: not empty, no surrounding white space. */
  ghost predicate IsPool(s: Text) {
    s != [] && Trimmed(s)
  }

  type Pool = p: Text | IsPool(p) ghost witness [49]

  datatype Invocation = Invocation(suite: Suite, env: Env, server: Server, maxWorkers: nat)

  datatype Worker = Worker(invocation: nat, pool: Pool)

  /**
   * `leases` is the advisory-lock table of each server's canonical host, one key per suite;
   * `unreached` lists the live invocations whose setup could not reach the server, `lost`
   * those whose lease session has ended while they go on.
   */
  datatype World = World(
    invocations: map<nat, Invocation>,
    unreached: set<nat>,
    lost: set<nat>,
    leases: map<(Server, Suite), nat>,
    workers: map<Worker, Text>)

  datatype Label =
    | Setup(id: nat, invocation: Invocation, reachable: bool)
    | Spawn(worker: Worker)
    | Stop(worker: Worker)
    | Teardown(id: nat)
    | LoseSession(id: nat)

  const EMPTY_WORLD := World(map[], {}, {}, map[], map[])

  predicate NeedsLease(env: Env) {
    ResolveIsolation(env) == Ok(WorkerDatabase)
  }

  /** TEST_ADMIN_DATABASE may not steer the lease host away from `postgres`. */
  predicate CanonicalHost(env: Env) {
    ReadString(env, TestAdminDatabase).None? || Is(env, TestAdminDatabase, "postgres")
  }

  /** The API configuration refuses parallel workers under an explicit worker id or without worker databases. */
  predicate ParallelismAccepted(inv: Invocation) {
    inv.suite == Api && inv.maxWorkers > 1 ==>
      Is(inv.env, TestDbIsolation, "worker-database") && ReadString(inv.env, TestWorkerId).None?
  }

  /** The database a worker of the invocation works in; None when its environment does not resolve. */
  ghost function SlotOf(inv: Invocation, pool: Pool): Option<Text> {
    if inv.suite == Api then
      if OwnsApiSlot(WorkerEnv(inv.env, pool)) then Some(ApiSlot(WorkerEnv(inv.env, pool))) else None
    else
      if OwnsPackageSlot(WorkerEnv(inv.env, pool)) then Some(PackageSlot(WorkerEnv(inv.env, pool))) else None
  }

  /** What the protocol asks about an invocation; its proof does not depend on the answers. */
  datatype Rules = Rules(
    slot: (Invocation, Pool) -> Option<Text>,
    needsLease: Env -> bool,
    canonicalHost: Env -> bool,
    parallelismAccepted: Invocation -> bool)

  ghost const RESOLVER := Rules(SlotOf, NeedsLease, CanonicalHost, ParallelismAccepted)

  ghost function WorkersOf(w: World, id: nat): set<Worker> {
    set x | x in w.workers && x.invocation == id
  }

  /**
   * A reachable server: the lease is held from setup to teardown, and a second run on the same
   * server and suite is turned away at once. An unreachable one: the API setup throws, the
   * package setup warns and goes on without a lease.
   */
  function NextSetup(rules: Rules, w: World, id: nat, inv: Invocation, reachable: bool): World {
    if id in w.invocations || !rules.parallelismAccepted(inv) then w
    else if !reachable then
      if inv.suite == Api then w else w.(invocations := w.invocations[id := inv], unreached := w.unreached + {id})
    else if !rules.needsLease(inv.env) then w.(invocations := w.invocations[id := inv])
    else if !rules.canonicalHost(inv.env) || (inv.server, inv.suite) in w.leases then w
    else w.(invocations := w.invocations[id := inv], leases := w.leases[(inv.server, inv.suite) := id])
  }

  /** The runner hands out pool ids that no live worker of the same invocation has. */
  ghost predicate MaySpawn(rules: Rules, w: World, x: Worker) {
    && x.invocation in w.invocations
    && rules.needsLease(w.invocations[x.invocation].env)
    && x !in w.workers
    && |WorkersOf(w, x.invocation)| < w.invocations[x.invocation].maxWorkers
    && rules.slot(w.invocations[x.invocation], x.pool).Some?
  }

  /** Normal teardown and a crash look alike: the session lock goes with the process, its workers with it. */
  function NextTeardown(w: World, id: nat): World {
    World(
      w.invocations - {id},
      w.unreached - {id},
      w.lost - {id},
      map k | k in w.leases && w.leases[k] != id :: w.leases[k],
      map x | x in w.workers && x.invocation != id :: w.workers[x])
  }

  /** The advisory lock goes with its session, the invocation does not. */
  ghost function NextLose(w: World, id: nat): World {
    if id in w.invocations && HoldsLease(w, id)
    then w.(lost := w.lost + {id}, leases := map k | k in w.leases && w.leases[k] != id :: w.leases[k])
    else w
  }

  ghost function Next(rules: Rules, w: World, l: Label): World {
    match l
    case Setup(id, inv, reachable) => NextSetup(rules, w, id, inv, reachable)
    case Spawn(x) =>
      if MaySpawn(rules, w, x)
      then w.(workers := w.workers[x := rules.slot(w.invocations[x.invocation], x.pool).value]) else w
    case Stop(x) => w.(workers := w.workers - {x})
    case Teardown(id) => NextTeardown(w, id)
    case LoseSession(id) => NextLose(w, id)
  }

  ghost function Exec(rules: Rules, w: World, labels: seq<Label>): World
    decreases |labels|
  {
    if labels == [] then w else Exec(rules, Next(rules, w, labels[0]), labels[1..])
  }

  // ----- invariant

  ghost predicate LeasesSound(w: World) {
    forall k :: k in w.leases ==>
      w.leases[k] in w.invocations && (w.invocations[w.leases[k]].server, w.invocations[w.leases[k]].suite) == k
  }

  ghost predicate WorkerSound(rules: Rules, w: World, x: Worker) {
    && x in w.workers && x.invocation in w.invocations
    && var inv := w.invocations[x.invocation];
       rules.needsLease(inv.env) && rules.slot(inv, x.pool) == Some(w.workers[x])
  }

  /** The invocation holds the lease of its server and suite. */
  ghost predicate HoldsLease(w: World, id: nat)
    requires id in w.invocations
  {
    var k := (w.invocations[id].server, w.invocations[id].suite);
    k in w.leases && w.leases[k] == id
  }

  predicate Unleased(w: World, id: nat) {
    id in w.unreached || id in w.lost
  }

  ghost predicate InvocationSound(rules: Rules, w: World, id: nat)
    requires id in w.invocations
  {
    var inv := w.invocations[id];
    && rules.parallelismAccepted(inv)
    && |WorkersOf(w, id)| <= inv.maxWorkers
    && (id in w.unreached ==> inv.suite == DbPackage)
    && (Unleased(w, id) ==> !HoldsLease(w, id))
    && (!Unleased(w, id) && rules.needsLease(inv.env) ==> HoldsLease(w, id))
  }

  ghost predicate Inv(rules: Rules, w: World) {
    && LeasesSound(w) && w.unreached + w.lost <= w.invocations.Keys
    && (forall id :: id in w.invocations ==> InvocationSound(rules, w, id))
    && (forall x :: x in w.workers ==> WorkerSound(rules, w, x))
  }

  lemma NoWorkersYet(rules: Rules, w: World, id: nat)
    requires Inv(rules, w) && id !in w.invocations
    ensures WorkersOf(w, id) == {}
  {
    forall x | x in w.workers
      ensures x.invocation != id
    {
      assert WorkerSound(rules, w, x);
    }
  }

  lemma SetupKeepsWorker(rules: Rules, w: World, id: nat, inv: Invocation, reachable: bool, x: Worker)
    requires id !in w.invocations && WorkerSound(rules, w, x)
    ensures WorkerSound(rules, NextSetup(rules, w, id, inv, reachable), x)
  {
  }

  lemma SetupKeepsInvocation(rules: Rules, w: World, id: nat, inv: Invocation, reachable: bool, i: nat)
    requires id !in w.invocations && w.unreached + w.lost <= w.invocations.Keys
           && i in w.invocations && InvocationSound(rules, w, i)
    ensures var w' := NextSetup(rules, w, id, inv, reachable); i in w'.invocations && InvocationSound(rules, w', i)
  {
    assert WorkersOf(NextSetup(rules, w, id, inv, reachable), i) == WorkersOf(w, i);
  }

  lemma SetupKeepsLeases(rules: Rules, w: World, id: nat, inv: Invocation, reachable: bool)
    requires LeasesSound(w) && id !in w.invocations
    ensures LeasesSound(NextSetup(rules, w, id, inv, reachable))
  {
  }

  lemma SetupIsSound(rules: Rules, w: World, id: nat, inv: Invocation, reachable: bool)
    requires LeasesSound(w) && w.unreached + w.lost <= w.invocations.Keys
    requires WorkersOf(w, id) == {} && id !in w.invocations && NextSetup(rules, w, id, inv, reachable) != w
    ensures var w' := NextSetup(rules, w, id, inv, reachable); id in w'.invocations && InvocationSound(rules, w', id)
  {
    assert WorkersOf(NextSetup(rules, w, id, inv, reachable), id) == WorkersOf(w, id);
  }

  lemma SetupStep(rules: Rules, w: World, id: nat, inv: Invocation, reachable: bool)
    requires Inv(rules, w)
    ensures Inv(rules, NextSetup(rules, w, id, inv, reachable))
  {
    var w' := NextSetup(rules, w, id, inv, reachable);
    if w' != w {
      NoWorkersYet(rules, w, id);
      SetupKeepsLeases(rules, w, id, inv, reachable);
      SetupIsSound(rules, w, id, inv, reachable);
      forall i | i in w'.invocations
        ensures InvocationSound(rules, w', i)
      {
        if i != id {
          SetupKeepsInvocation(rules, w, id, inv, reachable, i);
        }
      }
      forall x | x in w'.workers
        ensures WorkerSound(rules, w', x)
      {
        SetupKeepsWorker(rules, w, id, inv, reachable, x);
      }
    }
  }

  lemma SpawnKeepsInvocation(rules: Rules, w: World, x: Worker, id: nat)
    requires MaySpawn(rules, w, x) && id in w.invocations && InvocationSound(rules, w, id)
    ensures InvocationSound(rules, Next(rules, w, Spawn(x)), id)
  {
    var w' := Next(rules, w, Spawn(x));
    assert WorkersOf(w', id) == WorkersOf(w, id) + if id == x.invocation then {x} else {};
  }

  lemma SpawnStep(rules: Rules, w: World, x: Worker)
    requires Inv(rules, w) && MaySpawn(rules, w, x)
    ensures Inv(rules, Next(rules, w, Spawn(x)))
  {
    var w' := Next(rules, w, Spawn(x));
    assert InvocationSound(rules, w, x.invocation);
    forall i | i in w'.invocations
      ensures InvocationSound(rules, w', i)
    {
      SpawnKeepsInvocation(rules, w, x, i);
    }
    forall y | y in w'.workers
      ensures WorkerSound(rules, w', y)
    {
      if y != x {
        assert WorkerSound(rules, w, y);
      }
    }
  }

  lemma ShrinkStep(rules: Rules, w: World, w': World)
    requires Inv(rules, w)
    requires forall x :: x in w'.workers ==>
      x in w.workers && w'.workers[x] == w.workers[x] && WorkerSound(rules, w', x)
    requires forall id :: id in w'.invocations ==> id in w.invocations && w'.invocations[id] == w.invocations[id]
    requires LeasesSound(w') && w'.unreached == w.unreached * w'.invocations.Keys
    requires w'.lost == w.lost * w'.invocations.Keys
    requires forall id :: id in w'.invocations ==> HoldsLease(w', id) == HoldsLease(w, id)
    ensures Inv(rules, w')
  {
    forall id | id in w'.invocations
      ensures InvocationSound(rules, w', id)
    {
      assert InvocationSound(rules, w, id);
      SubsetSize(WorkersOf(w', id), WorkersOf(w, id));
    }
  }

  lemma TeardownKeepsLeases(w: World, id: nat)
    requires LeasesSound(w)
    ensures LeasesSound(NextTeardown(w, id))
    ensures forall i :: i in w.invocations && i != id ==> HoldsLease(NextTeardown(w, id), i) == HoldsLease(w, i)
  {
  }

  lemma TeardownStep(rules: Rules, w: World, id: nat)
    requires Inv(rules, w)
    ensures Inv(rules, NextTeardown(w, id))
  {
    var w' := NextTeardown(w, id);
    forall x | x in w'.workers
      ensures WorkerSound(rules, w', x)
    {
      assert WorkerSound(rules, w, x);
    }
    TeardownKeepsLeases(w, id);
    ShrinkStep(rules, w, w');
  }

  lemma LoseKeepsInvocation(rules: Rules, w: World, id: nat, i: nat)
    requires LeasesSound(w) && i in w.invocations && InvocationSound(rules, w, i)
    ensures InvocationSound(rules, NextLose(w, id), i)
  {
    assert WorkersOf(NextLose(w, id), i) == WorkersOf(w, i);
  }

  lemma LoseStep(rules: Rules, w: World, id: nat)
    requires Inv(rules, w)
    ensures Inv(rules, NextLose(w, id))
  {
    var w' := NextLose(w, id);
    forall i | i in w'.invocations
      ensures InvocationSound(rules, w', i)
    {
      LoseKeepsInvocation(rules, w, id, i);
    }
    forall x | x in w'.workers
      ensures WorkerSound(rules, w', x)
    {
      assert WorkerSound(rules, w, x);
    }
  }

  lemma StopStep(rules: Rules, w: World, x: Worker)
    requires Inv(rules, w)
    ensures Inv(rules, Next(rules, w, Stop(x)))
  {
    var w' := Next(rules, w, Stop(x));
    forall y | y in w'.workers
      ensures WorkerSound(rules, w', y)
    {
      assert WorkerSound(rules, w, y);
    }
    ShrinkStep(rules, w, w');
  }

  lemma StepKeepsInvariant(rules: Rules, w: World, l: Label)
    requires Inv(rules, w)
    ensures Inv(rules, Next(rules, w, l))
  {
    match l
    case Setup(id, inv, reachable) => SetupStep(rules, w, id, inv, reachable);
    case Spawn(x) =>
      if MaySpawn(rules, w, x) {
        SpawnStep(rules, w, x);
      }
    case Stop(x) => StopStep(rules, w, x);
    case Teardown(id) => TeardownStep(rules, w, id);
    case LoseSession(id) => LoseStep(rules, w, id);
  }

  lemma {:induction false} RunKeepsInvariant(rules: Rules, w: World, labels: seq<Label>)
    requires Inv(rules, w)
    ensures Inv(rules, Exec(rules, w, labels))
    decreases |labels|
  {
    if labels != [] {
      StepKeepsInvariant(rules, w, labels[0]);
      RunKeepsInvariant(rules, Next(rules, w, labels[0]), labels[1..]);
    }
  }

  /** Worlds reachable from no runs at all, with the names the resolver gives. */
  ghost predicate Reachable(w: World) {
    exists labels :: w == Exec(RESOLVER, EMPTY_WORLD, labels)
  }

  lemma ReachableInvariant(w: World)
    requires Reachable(w)
    ensures Inv(RESOLVER, w)
  {
    var labels :| w == Exec(RESOLVER, EMPTY_WORLD, labels);
    RunKeepsInvariant(RESOLVER, EMPTY_WORLD, labels);
  }

  // ----- main results

  /**
   * One live worker-database invocation per server and suite, at every moment, among those
   * that have their lease. The others are package invocations whose setup could not reach the
   * server, and invocations whose lease session has ended.
   */
  lemma LeaseExclusive(w: World, i: nat, j: nat)
    requires Reachable(w) && i in w.invocations && j in w.invocations
    requires w.invocations[i].server == w.invocations[j].server && w.invocations[i].suite == w.invocations[j].suite
    requires NeedsLease(w.invocations[i].env) && NeedsLease(w.invocations[j].env)
    ensures i != j ==> Unleased(w, i) || Unleased(w, j)
    ensures Unleased(w, i) <==> !HoldsLease(w, i)
    ensures i in w.unreached ==> w.invocations[i].suite == DbPackage
  {
    ReachableInvariant(w);
    assert InvocationSound(RESOLVER, w, i) && InvocationSound(RESOLVER, w, j);
  }

  /** Apart from one invocation, its workers and its lease, the two worlds are the same. */
  ghost predicate OthersUntouched(w: World, w': World, id: nat) {
    && (forall i :: i != id ==> (i in w'.invocations <==> i in w.invocations))
    && (forall i :: i != id && i in w.invocations ==> w'.invocations[i] == w.invocations[i])
    && (forall x :: x in w.workers && x.invocation != id ==> x in w'.workers && w'.workers[x] == w.workers[x])
    && (forall x :: x in w'.workers && x.invocation != id ==> x in w.workers)
    && (forall i :: i != id ==> (i in w'.unreached <==> i in w.unreached) && (i in w'.lost <==> i in w.lost))
    && (forall k :: k in w.leases && w.leases[k] != id ==> k in w'.leases && w'.leases[k] == w.leases[k])
    && (forall k :: k in w'.leases && w'.leases[k] != id ==> k in w.leases && w.leases[k] == w'.leases[k])
  }

  /** Nothing is left of the invocation. */
  ghost predicate Gone(w: World, id: nat) {
    && id !in w.invocations && id !in w.unreached && id !in w.lost
    && (forall x :: x in w.workers ==> x.invocation != id)
    && (forall k :: k in w.leases ==> w.leases[k] != id)
  }

  /** Teardown, or the end of the process: the invocation, its workers and its lease are gone, and nothing else. */
  lemma TeardownEndsRun(w: World, id: nat)
    requires Reachable(w)
    ensures Gone(Next(RESOLVER, w, Teardown(id)), id)
    ensures OthersUntouched(w, Next(RESOLVER, w, Teardown(id)), id)
  {
  }

  /** Losing a session, or stopping a worker, changes just that. */
  lemma SmallSteps(w: World, id: nat, x: Worker)
    requires Reachable(w)
    ensures var w' := Next(RESOLVER, w, LoseSession(id));
      && w'.invocations == w.invocations && w'.workers == w.workers && OthersUntouched(w, w', id)
      && (forall k :: k in w'.leases ==> w'.leases[k] != id)
      && (id in w'.lost <==> id in w.lost || (id in w.invocations && HoldsLease(w, id)))
    ensures var w' := Next(RESOLVER, w, Stop(x));
      && x !in w'.workers && w'.invocations == w.invocations && w'.leases == w.leases
      && w'.unreached == w.unreached && w'.lost == w.lost
      && (forall y :: y in w.workers && y != x ==> y in w'.workers && w'.workers[y] == w.workers[y])
      && (forall y :: y in w'.workers ==> y in w.workers)
  {
    ReachableInvariant(w);
    if id !in w.invocations || !HoldsLease(w, id) {
      forall k | k in w.leases
        ensures w.leases[k] != id
      {
        assert w.leases[k] in w.invocations;
      }
    }
  }

  /**
   * Exactly when a worker-database run gets in on a reachable server: its settings are
   * accepted, TEST_ADMIN_DATABASE does not point away, and no live run of its server and suite
   * holds the lease. It then holds it; otherwise it is turned away and nothing changes.
   */
  lemma SetupSucceedsIff(w: World, id: nat, inv: Invocation)
    requires Reachable(w) && id !in w.invocations && NeedsLease(inv.env)
    ensures var w' := Next(RESOLVER, w, Setup(id, inv, true));
      if ParallelismAccepted(inv) && CanonicalHost(inv.env)
         && (forall i ::
              i in w.invocations && w.invocations[i].server == inv.server && w.invocations[i].suite == inv.suite ==>
                !HoldsLease(w, i))
      then id in w'.invocations && w'.invocations[id] == inv && HoldsLease(w', id) && !Unleased(w', id)
           && OthersUntouched(w, w', id)
      else w' == w
  {
    ReachableInvariant(w);
    var k := (inv.server, inv.suite);
    if k in w.leases {
      assert HoldsLease(w, w.leases[k]);
    }
  }

  /** A run that needs no lease, in file-schema mode, is never turned away on a reachable server and takes none. */
  lemma FileSchemaNeedsNoLease(w: World, id: nat, inv: Invocation)
    requires Reachable(w) && id !in w.invocations
    requires ParallelismAccepted(inv) && Is(inv.env, TestDbIsolation, "file-schema")
    ensures var w' := Next(RESOLVER, w, Setup(id, inv, true));
      id in w'.invocations && w'.invocations[id] == inv && w'.leases == w.leases && w'.workers == w.workers
  {
    assert Lit("file-schema")[0] != Lit("worker-database")[0];
  }

  /** An unreachable server turns an API run away and lets a package run in without a lease. */
  lemma UnreachableSetup(w: World, id: nat, inv: Invocation)
    requires Reachable(w) && id !in w.invocations && ParallelismAccepted(inv)
    ensures var w' := Next(RESOLVER, w, Setup(id, inv, false));
      if inv.suite == Api then w' == w
      else id in w'.invocations && w'.invocations[id] == inv && id in w'.unreached
           && w'.leases == w.leases && w'.workers == w.workers
  {
  }

  /** After the holder's teardown the next run of its server and suite gets in. */
  lemma NextRunGetsIn(w: World, id: nat, next: nat, inv: Invocation)
    requires Reachable(w) && id in w.invocations && HoldsLease(w, id) && next !in w.invocations
    requires inv.server == w.invocations[id].server && inv.suite == w.invocations[id].suite
    requires ParallelismAccepted(inv) && NeedsLease(inv.env) && CanonicalHost(inv.env)
    ensures var w' := Next(RESOLVER, Next(RESOLVER, w, Teardown(id)), Setup(next, inv, true));
      next in w'.invocations && HoldsLease(w', next) && id !in w'.invocations
  {
    ReachableInvariant(w);
  }

  /** Exactly when an environment gives a worker of the suite a database, in terms of its raw settings. */
  ghost predicate GivesSlot(suite: Suite, env: Env) {
    && SettingsAccepted(env) && OnWorkerDatabases(env) && IsSafeName(SlotText(env))
    && if suite == Api then InDedicatedGroup(env) || WorkerAndShardAccepted(env)
       else WorkerAndShardAccepted(env) && IsSafeName(PlainSlot(env, Lit("exam_test_db_")))
  }

  ghost function SlotNamed(suite: Suite, env: Env): Text {
    if suite == Api then SlotText(env) else PlainSlot(env, Lit("exam_test_db_"))
  }

  lemma SlotOfSettings(inv: Invocation, pool: Pool)
    ensures var env := WorkerEnv(inv.env, pool);
      SlotOf(inv, pool) == if GivesSlot(inv.suite, env) then Some(SlotNamed(inv.suite, env)) else None
  {
    ApiSlotFromSettings(WorkerEnv(inv.env, pool));
    PackageSlotFromSettings(WorkerEnv(inv.env, pool));
  }

  ghost predicate HasPlace(w: World, id: nat)
    requires id in w.invocations
  {
    |set y | y in w.workers && y.invocation == id| < w.invocations[id].maxWorkers
  }

  /**
   * A worker of a live run starts exactly when the run has worker databases, a free place and
   * settings that give it one; it then works in the database the settings name, and nothing
   * else changes.
   */
  lemma WorkerSpawnsIff(w: World, x: Worker)
    requires Reachable(w) && x.invocation in w.invocations && x !in w.workers
    ensures var inv := w.invocations[x.invocation];
      var env := WorkerEnv(inv.env, x.pool);
      Next(RESOLVER, w, Spawn(x)) ==
        if NeedsLease(inv.env) && GivesSlot(inv.suite, env) && HasPlace(w, x.invocation)
        then w.(workers := w.workers[x := SlotNamed(inv.suite, env)]) else w
  {
    SlotOfSettings(w.invocations[x.invocation], x.pool);
    assert WorkersOf(w, x.invocation) == set y | y in w.workers && y.invocation == x.invocation;
  }

  /** What the settings mean: raw values, trimmed, an empty one counting as unset. */
  lemma SettingsRead(env: Env, inv: Invocation)
    ensures NeedsLease(env) <==>
      || TestDbIsolation !in env
      || Trim(env[TestDbIsolation]) == [] || Trim(env[TestDbIsolation]) == Lit("worker-database")
    ensures CanonicalHost(env) <==>
      TestAdminDatabase !in env || Trim(env[TestAdminDatabase]) == [] || Trim(env[TestAdminDatabase]) == Lit("postgres")
    ensures !ParallelismAccepted(inv) <==>
      && inv.suite == Api && inv.maxWorkers > 1
      && ((TestDbIsolation in inv.env ==> Trim(inv.env[TestDbIsolation]) != Lit("worker-database"))
          || (TestWorkerId in inv.env && Trim(inv.env[TestWorkerId]) != []))
  {
    assert Lit("worker-database") != [];
    assert Lit("file-schema")[0] != Lit("worker-database")[0];
  }

  /** The settings under which the workers of one invocation share a slot. */
  ghost predicate CollapsesSlots(inv: Invocation) {
    || (inv.suite == Api && ResolveGroup(inv.env).Ok? && Dedicated(ResolveGroup(inv.env).value))
    || (inv.suite == DbPackage && TestWorkerId in inv.env)
  }

  /** Slots of different suites never coincide. */
  lemma SuitesDisjoint(a: Invocation, p: Pool, b: Invocation, q: Pool)
    requires SlotOf(a, p).Some? && SlotOf(b, q).Some? && SlotOf(a, p) == SlotOf(b, q)
    ensures a.suite == b.suite
  {
    if a.suite == Api && b.suite == DbPackage {
      SlotNamespacesDisjoint(WorkerEnv(a.env, p), WorkerEnv(b.env, q));
    }
    if a.suite == DbPackage && b.suite == Api {
      SlotNamespacesDisjoint(WorkerEnv(b.env, q), WorkerEnv(a.env, p));
    }
  }

  /** Within an invocation, siblings share a slot exactly when its settings collapse them or name one worker. */
  lemma SiblingsShareIff(inv: Invocation, p: Pool, q: Pool)
    requires p != q && SlotOf(inv, p).Some? && SlotOf(inv, q).Some?
    ensures SlotOf(inv, p) == SlotOf(inv, q)
       <==> CollapsesSlots(inv) || (inv.suite == Api && ReadString(inv.env, TestWorkerId).Some?)
  {
    TrimOfTrimmed(p);
    TrimOfTrimmed(q);
    SharedReads(inv.env, p);
    if inv.suite == Api {
      ApiSiblingsDistinctIff(inv.env, p, q);
      assert WorkerEnv(inv.env, p)[VitestPoolId] == p;
      if TestWorkerId in inv.env && !Dedicated(ResolveTestScope(WorkerEnv(inv.env, p)).value.group) {
        assert ResolveWorkerId(WorkerEnv(inv.env, p)).Ok?;
      }
    } else {
      PackageSiblingsDistinctIff(inv.env, p, q);
    }
  }

  lemma TwoWorkersMeanParallel(rules: Rules, w: World, x: Worker, y: Worker)
    requires Inv(rules, w) && x in w.workers && y in w.workers && x != y && x.invocation == y.invocation
    ensures x.invocation in w.invocations && w.invocations[x.invocation].maxWorkers > 1
  {
    assert WorkerSound(rules, w, x);
    assert InvocationSound(rules, w, x.invocation);
    SubsetSize({x, y}, WorkersOf(w, x.invocation));
  }

  ghost predicate SameServer(w: World, x: Worker, y: Worker) {
    && x.invocation in w.invocations && y.invocation in w.invocations
    && w.invocations[x.invocation].server == w.invocations[y.invocation].server
  }

  /** The dimensions that make up a package slot name. */
  ghost predicate SamePackageSlot(a: Invocation, p: Pool, b: Invocation, q: Pool)
    requires OwnsPackageSlot(WorkerEnv(a.env, p)) && OwnsPackageSlot(WorkerEnv(b.env, q))
  {
    var s, t := ResolveDbPackageTestScope(WorkerEnv(a.env, p)).value,
      ResolveDbPackageTestScope(WorkerEnv(b.env, q)).value;
    s.isCi == t.isCi && s.worker == t.worker && (s.isCi ==> s.shard == t.shard)
  }

  /** Two workers whose environments resolve to slots of one suite with equal dimensions. */
  ghost predicate SameDimensions(a: Invocation, p: Pool, b: Invocation, q: Pool) {
    && a.suite == b.suite && SlotOf(a, p).Some? && SlotOf(b, q).Some?
    && if a.suite == Api
       then SameApiDimensions(ResolveTestScope(WorkerEnv(a.env, p)).value, ResolveTestScope(WorkerEnv(b.env, q)).value)
       else SamePackageSlot(a, p, b, q)
  }

  lemma SlotsCoincideIff(a: Invocation, p: Pool, b: Invocation, q: Pool)
    requires SlotOf(a, p).Some? && SlotOf(b, q).Some?
    ensures SlotOf(a, p) == SlotOf(b, q) <==> SameDimensions(a, p, b, q)
  {
    if a.suite != b.suite {
      if SlotOf(a, p) == SlotOf(b, q) {
        SuitesDisjoint(a, p, b, q);
      }
    } else if a.suite == Api {
      ApiSlotsCoincideIff(WorkerEnv(a.env, p), WorkerEnv(b.env, q));
    } else {
      PackageSlotInjective(WorkerEnv(a.env, p), WorkerEnv(b.env, q));
    }
  }

  /** Two invocations of which one is without its lease, with workers of the same dimensions. */
  ghost predicate UnleasedOverlap(w: World, x: Worker, y: Worker)
    requires x.invocation in w.invocations && y.invocation in w.invocations
  {
    && (Unleased(w, x.invocation) || Unleased(w, y.invocation))
    && SameDimensions(w.invocations[x.invocation], x.pool, w.invocations[y.invocation], y.pool)
  }

  lemma OtherInvocationSharesIff(w: World, x: Worker, y: Worker)
    requires Inv(RESOLVER, w) && x in w.workers && y in w.workers && SameServer(w, x, y) && x.invocation != y.invocation
    ensures w.workers[x] == w.workers[y] <==> UnleasedOverlap(w, x, y)
  {
    assert WorkerSound(RESOLVER, w, x) && WorkerSound(RESOLVER, w, y);
    assert InvocationSound(RESOLVER, w, x.invocation) && InvocationSound(RESOLVER, w, y.invocation);
    SlotsCoincideIff(w.invocations[x.invocation], x.pool, w.invocations[y.invocation], y.pool);
  }

  lemma SiblingShareIffCollapsed(w: World, x: Worker, y: Worker)
    requires Inv(RESOLVER, w) && x in w.workers && y in w.workers && x != y && x.invocation == y.invocation
    ensures x.invocation in w.invocations
    ensures w.workers[x] == w.workers[y] <==> CollapsesSlots(w.invocations[x.invocation])
  {
    assert WorkerSound(RESOLVER, w, x) && WorkerSound(RESOLVER, w, y);
    assert InvocationSound(RESOLVER, w, x.invocation);
    SiblingsShareIff(w.invocations[x.invocation], x.pool, y.pool);
    TwoWorkersMeanParallel(RESOLVER, w, x, y);
  }

  /**
   * A truncation by one live worker hits the database of another live worker of the server
   * in exactly two cases: the two belong to one invocation whose settings collapse its
   * workers onto one slot, or to two invocations of one suite of which at least one is
   * without its lease (a package run set up on an unreachable server, or any run whose lease
   * session has ended), and their slots have the same dimensions.
   */
  lemma TruncationHitsOtherIff(w: World, x: Worker, y: Worker)
    requires Reachable(w) && x in w.workers && y in w.workers && x != y && SameServer(w, x, y)
    ensures w.workers[x] == w.workers[y] <==>
      if x.invocation == y.invocation then CollapsesSlots(w.invocations[x.invocation]) else UnleasedOverlap(w, x, y)
  {
    ReachableInvariant(w);
    if x.invocation == y.invocation {
      SiblingShareIffCollapsed(w, x, y);
    } else {
      OtherInvocationSharesIff(w, x, y);
    }
  }

  /** Where every invocation has kept its lease, none ever truncates another's database. */
  lemma LeasedInvocationsNeverTruncateEachOther(w: World, x: Worker, y: Worker)
    requires Reachable(w) && w.unreached == {} && w.lost == {}
    requires x in w.workers && y in w.workers && SameServer(w, x, y) && x.invocation != y.invocation
    ensures w.workers[x] != w.workers[y]
  {
    TruncationHitsOtherIff(w, x, y);
  }

  /**
   * Two package runs started while the server is still coming up: both go on without a lease,
   * and workers of the same dimensions get one database.
   */
  lemma UnreachableServerLetsRunsCollide(a: Invocation, p: Pool, b: Invocation, q: Pool)
    requires a.suite == DbPackage && b.suite == DbPackage
           && a.server == b.server && a.maxWorkers >= 1 && b.maxWorkers >= 1
    requires NeedsLease(a.env) && NeedsLease(b.env)
    requires OwnsPackageSlot(WorkerEnv(a.env, p)) && OwnsPackageSlot(WorkerEnv(b.env, q)) && SamePackageSlot(a, p, b, q)
    ensures var w := Exec(RESOLVER, EMPTY_WORLD, UnleasedRun(a, p, b, q));
      && Worker(0, p) in w.workers && Worker(1, q) in w.workers
      && w.invocations == map[0 := a, 1 := b]
      && w.workers[Worker(0, p)] == w.workers[Worker(1, q)]
  {
    assert SlotOf(a, p).Some? && SlotOf(a, p) == SlotOf(b, q) by {
      PackageSlotInjective(WorkerEnv(a.env, p), WorkerEnv(b.env, q));
    }
    assert ParallelismAccepted(a) && ParallelismAccepted(b);
    CollideRun(RESOLVER, a, p, b, q);
  }

  function UnleasedRun(a: Invocation, p: Pool, b: Invocation, q: Pool): seq<Label> {
    [Setup(0, a, false), Setup(1, b, false)] + [Spawn(Worker(0, p)), Spawn(Worker(1, q))]
  }

  lemma CollideRun(rules: Rules, a: Invocation, p: Pool, b: Invocation, q: Pool)
    requires a.suite == DbPackage && b.suite == DbPackage && a.maxWorkers >= 1 && b.maxWorkers >= 1
    requires rules.parallelismAccepted(a) && rules.parallelismAccepted(b)
    requires rules.needsLease(a.env) && rules.needsLease(b.env) && rules.slot(a, p).Some? && rules.slot(b, q).Some?
    ensures Exec(rules, EMPTY_WORLD, UnleasedRun(a, p, b, q))
         == World(map[0 := a, 1 := b], {0, 1}, {}, map[],
                  map[Worker(0, p) := rules.slot(a, p).value, Worker(1, q) := rules.slot(b, q).value])
  {
    var l1, l2 := Setup(0, a, false), Setup(1, b, false);
    var w1 := Next(rules, EMPTY_WORLD, l1);
    var w2 := Next(rules, w1, l2);
    assert w2 == World(map[0 := a, 1 := b], {0, 1}, {}, map[], map[]);
    SpawnBoth(rules, w2, a, p, b, q);
    assert [l1, l2][1..] == [l2];
    assert Exec(rules, w1, [l2]) == Exec(rules, w2, []);
    ExecConcat(rules, EMPTY_WORLD, [l1, l2], [Spawn(Worker(0, p)), Spawn(Worker(1, q))]);
  }

  /** Setup, loss of the session, a second setup, and a worker in each. */
  function LostRun(a: Invocation, p: Pool, b: Invocation, q: Pool): seq<Label> {
    [Setup(0, a, true), LoseSession(0), Setup(1, b, true)] + [Spawn(Worker(0, p)), Spawn(Worker(1, q))]
  }

  lemma LostSetup(rules: Rules, a: Invocation, b: Invocation)
    requires a.suite == b.suite && a.server == b.server
    requires rules.parallelismAccepted(a) && rules.parallelismAccepted(b)
    requires rules.needsLease(a.env) && rules.needsLease(b.env)
           && rules.canonicalHost(a.env) && rules.canonicalHost(b.env)
    ensures Exec(rules, EMPTY_WORLD, [Setup(0, a, true), LoseSession(0), Setup(1, b, true)])
         == World(map[0 := a, 1 := b], {}, {0}, map[(a.server, a.suite) := 1], map[])
  {
    var l1, l2, l3 := Setup(0, a, true), LoseSession(0), Setup(1, b, true);
    var w1 := Next(rules, EMPTY_WORLD, l1);
    assert w1 == World(map[0 := a], {}, {}, map[(a.server, a.suite) := 0], map[]);
    var w2 := Next(rules, w1, l2);
    assert w2 == World(map[0 := a], {}, {0}, map[], map[]);
    var w3 := Next(rules, w2, l3);
    assert [l1, l2, l3][1..] == [l2, l3] && [l2, l3][1..] == [l3];
    assert Exec(rules, w2, [l3]) == Exec(rules, w3, []);
    assert Exec(rules, w1, [l2, l3]) == Exec(rules, w2, [l3]);
  }

  lemma SpawnBoth(rules: Rules, w: World, a: Invocation, p: Pool, b: Invocation, q: Pool)
    requires w.invocations == map[0 := a, 1 := b] && w.workers == map[] && a.maxWorkers >= 1 && b.maxWorkers >= 1
    requires rules.needsLease(a.env) && rules.needsLease(b.env) && rules.slot(a, p).Some? && rules.slot(b, q).Some?
    ensures Exec(rules, w, [Spawn(Worker(0, p)), Spawn(Worker(1, q))])
         == w.(workers := map[Worker(0, p) := rules.slot(a, p).value, Worker(1, q) := rules.slot(b, q).value])
  {
    var x, y := Worker(0, p), Worker(1, q);
    assert WorkersOf(w, 0) == {};
    var w1 := Next(rules, w, Spawn(x));
    assert w1 == w.(workers := map[x := rules.slot(a, p).value]);
    assert WorkersOf(w1, 1) == {};
    var w2 := Next(rules, w1, Spawn(y));
    assert [Spawn(x), Spawn(y)][1..] == [Spawn(y)];
    assert Exec(rules, w1, [Spawn(y)]) == Exec(rules, w2, []);
  }

  lemma {:induction false} ExecConcat(rules: Rules, w: World, a: seq<Label>, b: seq<Label>)
    ensures Exec(rules, w, a + b) == Exec(rules, Exec(rules, w, a), b)
    decreases |a|
  {
    if a == [] {
      assert a + b == b;
    } else {
      assert (a + b)[1..] == a[1..] + b;
      ExecConcat(rules, Next(rules, w, a[0]), a[1..], b);
    }
  }

  /** A run that has lost its lease session lets a second run of its suite in, and slots of the same dimensions meet. */
  lemma LostSessionLetsRunsCollide(a: Invocation, p: Pool, b: Invocation, q: Pool)
    requires a.server == b.server && a.maxWorkers >= 1 && b.maxWorkers >= 1 && SameDimensions(a, p, b, q)
    requires ParallelismAccepted(a) && ParallelismAccepted(b) && NeedsLease(a.env) && NeedsLease(b.env)
    requires CanonicalHost(a.env) && CanonicalHost(b.env)
    ensures var w := Exec(RESOLVER, EMPTY_WORLD, LostRun(a, p, b, q));
      && Worker(0, p) in w.workers && Worker(1, q) in w.workers && w.unreached == {}
      && w.workers[Worker(0, p)] == w.workers[Worker(1, q)]
  {
    SlotsCoincideIff(a, p, b, q);
    LostSetup(RESOLVER, a, b);
    SpawnBoth(RESOLVER, World(map[0 := a, 1 := b], {}, {0}, map[(a.server, a.suite) := 1], map[]), a, p, b, q);
    ExecConcat(RESOLVER, EMPTY_WORLD, [Setup(0, a, true), LoseSession(0), Setup(1, b, true)],
               [Spawn(Worker(0, p)), Spawn(Worker(1, q))]);
  }

  const ONE: Text := [49]

  function PlainRun(server: Server): Invocation {
    Invocation(DbPackage, map[], server, 1)
  }

  /** The plain case: no settings at all, both runs on pool 1, both in `exam_test_db_w1`. */
  lemma PlainRunsCollide(server: Server)
    ensures IsPool(ONE)
    ensures var a := PlainRun(server);
      var w := Exec(RESOLVER, EMPTY_WORLD, UnleasedRun(a, ONE, a, ONE));
      && Worker(0, ONE) in w.workers && Worker(1, ONE) in w.workers
      && w.workers[Worker(0, ONE)] == w.workers[Worker(1, ONE)] == PackagePrefix() + [119, 49]
  {
    var a := PlainRun(server);
    assert OwnsPackageSlot(WorkerEnv(a.env, ONE)) && SlotOf(a, ONE) == Some(PackagePrefix() + [119, 49]) by {
      PlainPackageSlot();
    }
    assert ParallelismAccepted(a) && NeedsLease(a.env);
    CollideRun(RESOLVER, a, ONE, a, ONE);
  }
}
