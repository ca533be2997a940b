/** Resolution of a test run's environment into the name of the PostgreSQL slot database it owns. */
module TestScope {
  import opened Prelude
  import opened Text

  datatype Var =
    | TestWorkerId | VitestPoolId | Vitest | TestShardIndex | ApiTestGroup
    | TestDbIsolation | TestQueueMode | TestInfraScope | Ci | GithubActions | TestAdminDatabase

  type Env = map<Var, Text>

  datatype Group = Fast | Background | Concurrency | E2e | All

  datatype Isolation = FileSchema | WorkerDatabase

  datatype ScopeError = InvalidGroup | InvalidIsolation | InvalidQueueMode | EmptyWorkerId | InvalidWorkerId
    | MissingPoolId | InvalidShard | UnsafeName | NotWorkerDatabase

  function ReadString(env: Env, v: Var): Option<Text> {
    if v !in env || Trim(env[v]) == [] then None else Some(Trim(env[v]))
  }

  predicate Is(env: Env, v: Var, s: string)
    requires forall i :: 0 <= i < |s| ==> s[i] as int < 128
  {
    ReadString(env, v) == Some(Lit(s))
  }

  predicate IsLower(u: CodeUnit) {
    97 <= u <= 122
  }

  predicate IsWorkerUnit(u: CodeUnit) {
    IsDigit(u) || IsLower(u) || 65 <= u <= 90 || u == 95 || u == 45
  }

  /** `^[A-Za-z0-9_-]+$` */
  predicate IsWorkerId(s: Text) {
    s != [] && forall i :: 0 <= i < |s| ==> IsWorkerUnit(s[i])
  }

  /** `^(0|[1-9][0-9]*)$` */
  predicate IsShardNumber(s: Text) {
    s != [] && (forall i :: 0 <= i < |s| ==> IsDigit(s[i])) && (s[0] == 48 ==> |s| == 1)
  }

  /** Charset, length and first unit of a derived database name. */
  predicate IsSafeName(s: Text) {
    && 0 < |s| <= 63
    && (forall i :: 0 <= i < |s| ==> IsLower(s[i]) || IsDigit(s[i]) || s[i] == 95)
    && !IsDigit(s[0])
  }

  const NAME_CHARACTERS: set<char> := {
    '0', '1', '2', '3', '4', '5', '6', '7', '8', '9', 'a', 'b', 'c', 'd', 'e', 'f',
    'g', 'h', 'i', 'j', 'k', 'l', 'm', 'n', 'o', 'p', 'q', 'r', 's', 't', 'u', 'v',
    'w', 'x', 'y', 'z', '_'
  }

  const CAPITALS: set<char> := {
    'A', 'B', 'C', 'D', 'E', 'F', 'G', 'H', 'I', 'J', 'K', 'L', 'M', 'N', 'O', 'P',
    'Q', 'R', 'S', 'T', 'U', 'V', 'W', 'X', 'Y', 'Z'
  }

  predicate Spells(u: CodeUnit, characters: set<char>) {
    u < 128 && u as char in characters
  }

  lemma NameCharacter(u: CodeUnit)
    ensures Spells(u, NAME_CHARACTERS) <==> IsLower(u) || IsDigit(u) || u == 95
  {
  }

  lemma Capital(u: CodeUnit)
    ensures Spells(u, CAPITALS) <==> 65 <= u <= 90
  {
  }

  lemma Digit(u: CodeUnit)
    ensures Spells(u, {'0', '1', '2', '3', '4', '5', '6', '7', '8', '9'}) <==> IsDigit(u)
  {
  }

  /** The characters of worker ids, shard numbers and database names, one by one. */
  lemma CharactersListed(s: Text)
    ensures IsWorkerId(s) <==>
      s != [] && forall i :: 0 <= i < |s| ==>
        Spells(s[i], NAME_CHARACTERS) || Spells(s[i], CAPITALS) || s[i] == '-' as int
    ensures IsSafeName(s) <==>
      0 < |s| <= 63 && !(48 <= s[0] <= 57) && forall i :: 0 <= i < |s| ==> Spells(s[i], NAME_CHARACTERS)
    ensures IsShardNumber(s) <==>
      || s == Lit("0")
      || (s != [] && s[0] != 48 && forall i :: 0 <= i < |s| ==>
            Spells(s[i], {'0', '1', '2', '3', '4', '5', '6', '7', '8', '9'}))
  {
    forall i | 0 <= i < |s|
      ensures Spells(s[i], NAME_CHARACTERS) <==> IsLower(s[i]) || IsDigit(s[i]) || s[i] == 95
      ensures Spells(s[i], CAPITALS) <==> 65 <= s[i] <= 90
    {
      NameCharacter(s[i]);
      Capital(s[i]);
    }
    forall i | 0 <= i < |s|
      ensures Spells(s[i], {'0', '1', '2', '3', '4', '5', '6', '7', '8', '9'}) <==> IsDigit(s[i])
    {
      Digit(s[i]);
    }
  }

  function ResolveWorkerId(env: Env): Result<Text, ScopeError> {
    if TestWorkerId in env then
      var explicit := Trim(env[TestWorkerId]);
      if explicit == [] then Err(EmptyWorkerId)
      else if !IsWorkerId(explicit) then Err(InvalidWorkerId) else Ok(explicit)
    else if ReadString(env, VitestPoolId).Some? then
      var pool := ReadString(env, VitestPoolId).value;
      if !IsWorkerId(pool) then Err(InvalidWorkerId) else Ok(pool)
    else if Vitest in env && env[Vitest] == Lit("true") then Err(MissingPoolId)
    else Ok(Lit("1"))
  }

  function ResolveShardIndex(env: Env, isCi: bool): Result<Text, ScopeError> {
    match ReadString(env, TestShardIndex)
    case None => Ok(if isCi then Lit("1") else Lit("local"))
    case Some(raw) =>
      if raw == Lit("local") then Ok(raw)
      else if IsShardNumber(raw) then Ok(raw) else Err(InvalidShard)
  }

  function GroupName(g: Group): Text {
    match g
    case Fast => Lit("fast")
    case Background => Lit("background")
    case Concurrency => Lit("concurrency")
    case E2e => Lit("e2e")
    case All => Lit("all")
  }

  function ResolveGroup(env: Env): Result<Group, ScopeError> {
    match ReadString(env, ApiTestGroup)
    case None => Ok(Fast)
    case Some(raw) =>
      if raw == Lit("fast") then Ok(Fast) else if raw == Lit("background") then Ok(Background)
      else if raw == Lit("concurrency") then Ok(Concurrency) else if raw == Lit("e2e") then Ok(E2e)
      else if raw == Lit("all") then Ok(All) else Err(InvalidGroup)
  }

  function ResolveIsolation(env: Env): Result<Isolation, ScopeError> {
    match ReadString(env, TestDbIsolation)
    case None => Ok(WorkerDatabase)
    case Some(raw) =>
      if raw == Lit("file-schema") then Ok(FileSchema)
      else if raw == Lit("worker-database") then Ok(WorkerDatabase) else Err(InvalidIsolation)
  }

  predicate QueueModeAccepted(env: Env) {
    || ReadString(env, TestQueueMode).None?
    || Is(env, TestQueueMode, "disabled") || Is(env, TestQueueMode, "producer-only")
    || Is(env, TestQueueMode, "worker-enabled")
  }

  predicate IsCi(env: Env) {
    Is(env, TestInfraScope, "ci") || Is(env, Ci, "true") || Is(env, GithubActions, "true")
  }

  predicate Dedicated(g: Group) {
    g == Background || g == Concurrency || g == E2e
  }

  datatype Scope = Scope(
    group: Group, isolation: Isolation, isCi: bool, shard: Text, worker: Text, database: Option<Text>)

  function SlotName(prefix: Text, isCi: bool, shard: Text, worker: Text): Text {
    if isCi then prefix + Lit("s") + shard + Lit("_w") + worker else prefix + Lit("w") + worker
  }

  function ApiPrefix(): Text {
    Lit("exam_test_")
  }

  function PackagePrefix(): Text {
    Lit("exam_test_db_")
  }

  function DeriveDatabaseName(g: Group, isolation: Isolation, isCi: bool, shard: Text, worker: Text)
    : Result<Option<Text>, ScopeError> {
    if isolation == FileSchema then Ok(None)
    else
      var name := if Dedicated(g) then ApiPrefix() + GroupName(g) else SlotName(ApiPrefix(), isCi, shard, worker);
      if IsSafeName(name) then Ok(Some(name)) else Err(UnsafeName)
  }

  function ResolveTestScope(env: Env): Result<Scope, ScopeError> {
    var group := ResolveGroup(env);
    var isolation := ResolveIsolation(env);
    if group.Err? then Err(group.error)
    else if isolation.Err? then Err(isolation.error)
    else if !QueueModeAccepted(env) then Err(InvalidQueueMode)
    else
      var isCi := IsCi(env);
      var worker := if Dedicated(group.value) then Ok(GroupName(group.value)) else ResolveWorkerId(env);
      var shard := if Dedicated(group.value) then Ok(Lit("local")) else ResolveShardIndex(env, isCi);
      if worker.Err? then Err(worker.error)
      else if shard.Err? then Err(shard.error)
      else
        var name := DeriveDatabaseName(group.value, isolation.value, isCi, shard.value, worker.value);
        if name.Err? then Err(name.error)
        else Ok(Scope(group.value, isolation.value, isCi, shard.value, worker.value, name.value))
  }

  /** The @exam/db package derives its slot from worker and shard alone, whatever the API group. */
  function ResolveDbPackageTestScope(env: Env): Result<Scope, ScopeError> {
    var scope := ResolveTestScope(env);
    if scope.Err? then scope
    else if scope.value.isolation == FileSchema then Err(NotWorkerDatabase)
    else
      var worker := ResolveWorkerId(env);
      var shard := ResolveShardIndex(env, scope.value.isCi);
      if worker.Err? then Err(worker.error)
      else if shard.Err? then Err(shard.error)
      else
        var name := SlotName(PackagePrefix(), scope.value.isCi, shard.value, worker.value);
        if IsSafeName(name) then Ok(scope.value.(database := Some(name), worker := worker.value, shard := shard.value))
        else Err(UnsafeName)
  }

  // ----- names read back

  ghost predicate NoUnderscore(s: Text) {
    forall i :: 0 <= i < |s| ==> s[i] != 95
  }

  lemma ShardNoLonger(a: Text, b: Text, x: Text, y: Text)
    requires NoUnderscore(a) && a + ([95] + x) == b + ([95] + y)
    ensures |a| <= |b|
  {
    if |b| < |a| {
      UnderscoreInside(a, b, x, y);
      assert false;
    }
  }

  lemma UnderscoreInside(a: Text, b: Text, x: Text, y: Text)
    requires a + ([95] + x) == b + ([95] + y) && |b| < |a|
    ensures a[|b|] == 95
  {
    assert a[|b|] == (a + ([95] + x))[|b|] == (b + ([95] + y))[|b|] == 95;
  }

  lemma ShardWorkerSplit(a: Text, b: Text, x: Text, y: Text)
    requires NoUnderscore(a) && NoUnderscore(b) && a + ([95] + x) == b + ([95] + y)
    ensures a == b && x == y
  {
    ShardNoLonger(a, b, x, y);
    ShardNoLonger(b, a, y, x);
    Peel(a, [95] + x, b, [95] + y);
    Peel([95], x, [95], y);
  }

  lemma CiNameShape(prefix: Text, shard: Text, worker: Text)
    ensures SlotName(prefix, true, shard, worker) == prefix + ([115] + (shard + ([95] + ([119] + worker))))
  {
    assert Lit("s") == [115] && Lit("_w") == [95] + [119];
  }

  lemma LocalNameShape(prefix: Text, shard: Text, worker: Text)
    ensures SlotName(prefix, false, shard, worker) == prefix + ([119] + worker)
  {
    assert Lit("w") == [119];
  }

  /** A slot name is read back: the CI flag, the worker and, in CI, the shard. Locally the shard is not in the name. */
  lemma SlotNameInjective(prefix: Text, ci: bool, shard: Text, worker: Text, ci': bool, shard': Text, worker': Text)
    requires NoUnderscore(shard) && NoUnderscore(shard')
    ensures SlotName(prefix, ci, shard, worker) == SlotName(prefix, ci', shard', worker')
       <==> ci == ci' && worker == worker' && (ci ==> shard == shard')
  {
    CiNameShape(prefix, shard, worker);
    CiNameShape(prefix, shard', worker');
    LocalNameShape(prefix, shard, worker);
    LocalNameShape(prefix, shard', worker');
    if SlotName(prefix, ci, shard, worker) == SlotName(prefix, ci', shard', worker') {
      var rest := if ci then [115] + (shard + ([95] + ([119] + worker))) else [119] + worker;
      var rest' := if ci' then [115] + (shard' + ([95] + ([119] + worker'))) else [119] + worker';
      Peel(prefix, rest, prefix, rest');
      assert rest[0] == rest'[0];
      if ci {
        Peel([115], shard + ([95] + ([119] + worker)), [115], shard' + ([95] + ([119] + worker')));
        ShardWorkerSplit(shard, shard', [119] + worker, [119] + worker');
        Peel([119], worker, [119], worker');
      } else {
        Peel([119], worker, [119], worker');
      }
    }
  }

  lemma ShardHasNoUnderscore(env: Env, isCi: bool)
    requires ResolveShardIndex(env, isCi).Ok?
    ensures NoUnderscore(ResolveShardIndex(env, isCi).value)
  {
  }

  // ----- main results on names

  ghost predicate OwnsApiSlot(env: Env) {
    ResolveTestScope(env).Ok? && ResolveTestScope(env).value.database.Some?
  }

  ghost predicate OwnsPackageSlot(env: Env) {
    ResolveDbPackageTestScope(env).Ok?
  }

  ghost function ApiSlot(env: Env): Text
    requires OwnsApiSlot(env)
  {
    ResolveTestScope(env).value.database.value
  }

  ghost function PackageSlot(env: Env): Text
    requires OwnsPackageSlot(env)
  {
    ResolveDbPackageTestScope(env).value.database.value
  }

  /** Ordinary API slots are injective in CI flag, worker and (in CI) shard. */
  lemma ApiSlotInjective(a: Env, b: Env)
    requires OwnsApiSlot(a) && OwnsApiSlot(b)
    requires !Dedicated(ResolveTestScope(a).value.group) && !Dedicated(ResolveTestScope(b).value.group)
    ensures var s, t := ResolveTestScope(a).value, ResolveTestScope(b).value;
      ApiSlot(a) == ApiSlot(b) <==> s.isCi == t.isCi && s.worker == t.worker && (s.isCi ==> s.shard == t.shard)
  {
    var s, t := ResolveTestScope(a).value, ResolveTestScope(b).value;
    ShardHasNoUnderscore(a, s.isCi);
    ShardHasNoUnderscore(b, t.isCi);
    SlotNameInjective(ApiPrefix(), s.isCi, s.shard, s.worker, t.isCi, t.shard, t.worker);
  }

  /** Package slots are injective in the same dimensions, under any API group. */
  lemma PackageSlotInjective(a: Env, b: Env)
    requires OwnsPackageSlot(a) && OwnsPackageSlot(b)
    ensures var s, t := ResolveDbPackageTestScope(a).value, ResolveDbPackageTestScope(b).value;
      PackageSlot(a) == PackageSlot(b) <==> s.isCi == t.isCi && s.worker == t.worker && (s.isCi ==> s.shard == t.shard)
  {
    var s, t := ResolveDbPackageTestScope(a).value, ResolveDbPackageTestScope(b).value;
    ShardHasNoUnderscore(a, s.isCi);
    ShardHasNoUnderscore(b, t.isCi);
    SlotNameInjective(PackagePrefix(), s.isCi, s.shard, s.worker, t.isCi, t.shard, t.worker);
  }

  lemma UnitAfterPrefix(prefix: Text, rest: Text)
    requires rest != []
    ensures |prefix + rest| > |prefix| && (prefix + rest)[|prefix|] == rest[0]
  {
  }

  // ----- what the settings come to

  /** The setting is this ASCII text, white space around it aside. */
  ghost predicate Set(env: Env, v: Var, s: string)
    requires forall i :: 0 <= i < |s| ==> s[i] as int < 128
  {
    v in env && Trim(env[v]) == Lit(s)
  }

  ghost predicate Unset(env: Env, v: Var) {
    v !in env || Trim(env[v]) == []
  }

  ghost predicate InCi(env: Env) {
    Set(env, TestInfraScope, "ci") || Set(env, Ci, "true") || Set(env, GithubActions, "true")
  }

  ghost predicate InDedicatedGroup(env: Env) {
    Set(env, ApiTestGroup, "background") || Set(env, ApiTestGroup, "concurrency") || Set(env, ApiTestGroup, "e2e")
  }

  ghost function WorkerOf(env: Env): Text {
    if TestWorkerId in env then Trim(env[TestWorkerId])
    else if Unset(env, VitestPoolId) then Lit("1") else Trim(env[VitestPoolId])
  }

  ghost function ShardOf(env: Env): Text {
    if !Unset(env, TestShardIndex) then Trim(env[TestShardIndex]) else if InCi(env) then Lit("1") else Lit("local")
  }

  ghost function PlainSlot(env: Env, prefix: Text): Text {
    if InCi(env) then prefix + Lit("s") + ShardOf(env) + Lit("_w") + WorkerOf(env)
    else prefix + Lit("w") + WorkerOf(env)
  }

  ghost function SlotText(env: Env): Text {
    if InDedicatedGroup(env) then Lit("exam_test_") + Trim(env[ApiTestGroup]) else PlainSlot(env, Lit("exam_test_"))
  }

  /** A worker id and a shard are there and well-formed; a missing pool id is an error only under the runner. */
  ghost predicate WorkerAndShardAccepted(env: Env) {
    && IsWorkerId(WorkerOf(env))
    && (TestWorkerId !in env && Unset(env, VitestPoolId) ==> !(Vitest in env && env[Vitest] == Lit("true")))
    && (ShardOf(env) == Lit("local") || IsShardNumber(ShardOf(env)))
  }

  ghost predicate SettingsAccepted(env: Env) {
    && (|| Unset(env, ApiTestGroup) || InDedicatedGroup(env)
        || Set(env, ApiTestGroup, "fast") || Set(env, ApiTestGroup, "all"))
    && (Unset(env, TestQueueMode) || Set(env, TestQueueMode, "disabled") || Set(env, TestQueueMode, "producer-only")
        || Set(env, TestQueueMode, "worker-enabled"))
  }

  ghost predicate OnWorkerDatabases(env: Env) {
    Unset(env, TestDbIsolation) || Set(env, TestDbIsolation, "worker-database")
  }

  lemma DistinctGroups(s: Text)
    ensures s == Lit("fast") ==> s[0] == 102
    ensures s == Lit("all") ==> s[0] == 97
    ensures s == Lit("background") ==> s[0] == 98
    ensures s == Lit("concurrency") ==> s[0] == 99
    ensures s == Lit("e2e") ==> s[0] == 101
  {
  }

  lemma GroupRead(env: Env)
    ensures ResolveGroup(env).Ok? <==>
      || Unset(env, ApiTestGroup) || InDedicatedGroup(env)
      || Set(env, ApiTestGroup, "fast") || Set(env, ApiTestGroup, "all")
    ensures ResolveGroup(env).Ok? ==> (Dedicated(ResolveGroup(env).value) <==> InDedicatedGroup(env))
    ensures InDedicatedGroup(env) ==>
      ResolveGroup(env).Ok? && GroupName(ResolveGroup(env).value) == Trim(env[ApiTestGroup])
  {
    if ApiTestGroup in env {
      DistinctGroups(Trim(env[ApiTestGroup]));
    }
  }

  lemma WorkerAndShardRead(env: Env)
    ensures IsCi(env) <==> InCi(env)
    ensures ResolveWorkerId(env).Ok? && ResolveShardIndex(env, IsCi(env)).Ok? <==> WorkerAndShardAccepted(env)
    ensures ResolveWorkerId(env).Ok? ==> ResolveWorkerId(env).value == WorkerOf(env)
    ensures ResolveShardIndex(env, IsCi(env)).Ok? ==> ResolveShardIndex(env, IsCi(env)).value == ShardOf(env)
  {
    assert IsShardNumber(Lit("1")) && IsWorkerId(Lit("1"));
  }

  lemma IsolationRead(env: Env)
    ensures ResolveIsolation(env) == Ok(WorkerDatabase) <==> OnWorkerDatabases(env)
    ensures QueueModeAccepted(env) <==>
      (Unset(env, TestQueueMode) || Set(env, TestQueueMode, "disabled") || Set(env, TestQueueMode, "producer-only")
       || Set(env, TestQueueMode, "worker-enabled"))
  {
    assert Lit("file-schema")[0] != Lit("worker-database")[0];
  }

  /** Exactly when an environment gets an API slot, and which one, in terms of its raw settings. */
  lemma ApiSlotFromSettings(env: Env)
    ensures OwnsApiSlot(env) <==>
      && SettingsAccepted(env) && OnWorkerDatabases(env)
      && (InDedicatedGroup(env) || WorkerAndShardAccepted(env)) && IsSafeName(SlotText(env))
    ensures OwnsApiSlot(env) ==> ApiSlot(env) == SlotText(env)
  {
    GroupRead(env);
    IsolationRead(env);
    WorkerAndShardRead(env);
  }

  lemma PackageSlotBesideApi(env: Env)
    ensures OwnsPackageSlot(env) <==>
      && OwnsApiSlot(env) && ResolveWorkerId(env).Ok? && ResolveShardIndex(env, IsCi(env)).Ok?
      && IsSafeName(SlotName(PackagePrefix(), IsCi(env), ResolveShardIndex(env, IsCi(env)).value,
                             ResolveWorkerId(env).value))
    ensures OwnsPackageSlot(env) ==>
      PackageSlot(env) == SlotName(PackagePrefix(), IsCi(env), ResolveShardIndex(env, IsCi(env)).value,
                                   ResolveWorkerId(env).value)
  {
  }

  /** The same for the database package, whose slots ignore the group except that it must resolve. */
  lemma PackageSlotFromSettings(env: Env)
    ensures OwnsPackageSlot(env) <==>
      && SettingsAccepted(env) && OnWorkerDatabases(env) && IsSafeName(SlotText(env))
      && WorkerAndShardAccepted(env) && IsSafeName(PlainSlot(env, Lit("exam_test_db_")))
    ensures OwnsPackageSlot(env) ==> PackageSlot(env) == PlainSlot(env, Lit("exam_test_db_"))
  {
    ApiSlotFromSettings(env);
    PackageSlotBesideApi(env);
    WorkerAndShardRead(env);
  }

  ghost predicate GroupKnown(env: Env) {
    || Unset(env, ApiTestGroup) || InDedicatedGroup(env)
    || Set(env, ApiTestGroup, "fast") || Set(env, ApiTestGroup, "all")
  }

  /** What is wrong with the worker id: an explicit one is empty, or none is there under the runner. */
  ghost predicate WorkerFault(env: Env, e: ScopeError) {
    match e
    case EmptyWorkerId => TestWorkerId in env && Trim(env[TestWorkerId]) == []
    case MissingPoolId =>
      TestWorkerId !in env && Unset(env, VitestPoolId) && Vitest in env && env[Vitest] == Lit("true")
    case InvalidWorkerId => WorkerOf(env) != [] && !IsWorkerId(WorkerOf(env))
    case _ => false
  }

  /** Each error with its cause; an ordinary group needs a worker id and a shard, a dedicated one neither. */
  ghost predicate Refuses(env: Env, e: ScopeError) {
    match e
    case InvalidGroup => !GroupKnown(env)
    case InvalidIsolation => !OnWorkerDatabases(env) && !Set(env, TestDbIsolation, "file-schema")
    case InvalidQueueMode =>
      !(Unset(env, TestQueueMode) || Set(env, TestQueueMode, "disabled") || Set(env, TestQueueMode, "producer-only")
        || Set(env, TestQueueMode, "worker-enabled"))
    case InvalidShard =>
      !InDedicatedGroup(env) && ShardOf(env) != Lit("local") && !IsShardNumber(ShardOf(env))
    case UnsafeName => OnWorkerDatabases(env) && !IsSafeName(SlotText(env))
    case NotWorkerDatabase => false
    case _ => !InDedicatedGroup(env) && WorkerFault(env, e)
  }

  /** The order in which settings are looked at. */
  ghost function Rank(e: ScopeError): nat {
    match e
    case InvalidGroup => 0
    case InvalidIsolation => 1
    case InvalidQueueMode => 2
    case EmptyWorkerId | InvalidWorkerId | MissingPoolId => 3
    case InvalidShard => 4
    case UnsafeName => 5
    case NotWorkerDatabase => 6
  }

  ghost predicate RefusedFirst(env: Env, e: ScopeError) {
    Refuses(env, e) && forall f :: Rank(f) < Rank(e) ==> !Refuses(env, f)
  }

  lemma WorkerRefusal(env: Env, e: ScopeError)
    ensures ResolveWorkerId(env) == Err(e) <==> WorkerFault(env, e)
  {
    assert IsWorkerId(Lit("1"));
  }

  lemma SettingsRefusal(env: Env)
    ensures ResolveGroup(env).Ok? <==> !Refuses(env, InvalidGroup)
    ensures ResolveIsolation(env).Ok? <==> !Refuses(env, InvalidIsolation)
    ensures QueueModeAccepted(env) <==> !Refuses(env, InvalidQueueMode)
    ensures ResolveGroup(env).Err? ==> ResolveGroup(env).error == InvalidGroup
    ensures ResolveIsolation(env).Err? ==> ResolveIsolation(env).error == InvalidIsolation
  {
    GroupRead(env);
    IsolationRead(env);
  }

  lemma DimensionsRefusal(env: Env, e: ScopeError)
    requires !InDedicatedGroup(env)
    ensures ResolveWorkerId(env) == Err(e) ==> Refuses(env, e) && Rank(e) == 3
    ensures ResolveWorkerId(env).Ok? && Rank(e) == 3 ==> !Refuses(env, e)
    ensures ResolveShardIndex(env, IsCi(env)).Err? <==> Refuses(env, InvalidShard)
    ensures ResolveShardIndex(env, IsCi(env)) == Err(e) ==> e == InvalidShard
  {
    WorkerRefusal(env, e);
    WorkerAndShardRead(env);
  }

  lemma RefusedEarly(env: Env)
    requires ResolveGroup(env).Err? || ResolveIsolation(env).Err? || !QueueModeAccepted(env)
    ensures ResolveTestScope(env).Err? && RefusedFirst(env, ResolveTestScope(env).error)
  {
    SettingsRefusal(env);
  }

  lemma RefusedLate(env: Env)
    requires ResolveGroup(env).Ok? && ResolveIsolation(env).Ok? && QueueModeAccepted(env)
    ensures ResolveTestScope(env).Err? ==> RefusedFirst(env, ResolveTestScope(env).error)
    ensures ResolveTestScope(env).Ok? ==> forall e :: !Refuses(env, e)
    ensures ResolveTestScope(env).Ok? ==>
      (ResolveTestScope(env).value.database == None <==> Set(env, TestDbIsolation, "file-schema"))
  {
    SettingsRefusal(env);
    GroupRead(env);
    IsolationRead(env);
    WorkerAndShardRead(env);
    if !InDedicatedGroup(env) {
      forall e
        ensures ResolveWorkerId(env) == Err(e) ==> Refuses(env, e) && Rank(e) == 3
        ensures ResolveWorkerId(env).Ok? && Rank(e) == 3 ==> !Refuses(env, e)
        ensures ResolveShardIndex(env, IsCi(env)).Err? <==> Refuses(env, InvalidShard)
        ensures ResolveShardIndex(env, IsCi(env)) == Err(e) ==> e == InvalidShard
      {
        DimensionsRefusal(env, e);
      }
    }
  }

  /** Resolution fails with the first thing that is wrong, and a run in file-schema mode owns no slot. */
  lemma FailsWithFirstRefusal(env: Env)
    ensures ResolveTestScope(env).Err? ==> RefusedFirst(env, ResolveTestScope(env).error)
    ensures ResolveTestScope(env).Ok? ==> forall e :: !Refuses(env, e)
    ensures ResolveTestScope(env).Ok? ==>
      (ResolveTestScope(env).value.database == None <==> Set(env, TestDbIsolation, "file-schema"))
  {
    if ResolveGroup(env).Err? || ResolveIsolation(env).Err? || !QueueModeAccepted(env) {
      RefusedEarly(env);
    } else {
      RefusedLate(env);
    }
  }

  /** The unit after `exam_test_` tells the kinds of slot apart. */
  lemma ApiSlotKind(env: Env)
    requires OwnsApiSlot(env)
    ensures var s := ResolveTestScope(env).value;
      |ApiSlot(env)| > 10 && ApiSlot(env)[10] == (
        if Dedicated(s.group) then GroupName(s.group)[0] else if s.isCi then 115 else 119)
  {
    var s := ResolveTestScope(env).value;
    if Dedicated(s.group) {
      UnitAfterPrefix(ApiPrefix(), GroupName(s.group));
    } else if s.isCi {
      CiNameShape(ApiPrefix(), s.shard, s.worker);
      UnitAfterPrefix(ApiPrefix(), [115] + (s.shard + ([95] + ([119] + s.worker))));
    } else {
      LocalNameShape(ApiPrefix(), s.shard, s.worker);
      UnitAfterPrefix(ApiPrefix(), [119] + s.worker);
    }
  }

  /** What makes two API slots one: the same dedicated group, or two ordinary groups with equal dimensions. */
  ghost predicate SameApiDimensions(s: Scope, t: Scope) {
    if Dedicated(s.group) || Dedicated(t.group) then s.group == t.group
    else s.isCi == t.isCi && s.worker == t.worker && (s.isCi ==> s.shard == t.shard)
  }

  /** API slots coincide exactly for equal dimensions, dedicated groups included. */
  lemma ApiSlotsCoincideIff(a: Env, b: Env)
    requires OwnsApiSlot(a) && OwnsApiSlot(b)
    ensures ApiSlot(a) == ApiSlot(b) <==> SameApiDimensions(ResolveTestScope(a).value, ResolveTestScope(b).value)
  {
    var s, t := ResolveTestScope(a).value, ResolveTestScope(b).value;
    if Dedicated(s.group) || Dedicated(t.group) {
      ApiSlotKind(a);
      ApiSlotKind(b);
      DedicatedSlot(a);
      DedicatedSlot(b);
    } else {
      ApiSlotInjective(a, b);
    }
  }

  lemma DedicatedSlot(env: Env)
    requires OwnsApiSlot(env)
    ensures var g := ResolveTestScope(env).value.group; Dedicated(g) ==> ApiSlot(env) == ApiPrefix() + GroupName(g)
  {
  }

  lemma PackageSlotKind(env: Env)
    requires OwnsPackageSlot(env)
    ensures |PackageSlot(env)| > 10 && PackageSlot(env)[10] == 100
  {
    var s := ResolveDbPackageTestScope(env).value;
    CiNameShape(PackagePrefix(), s.shard, s.worker);
    LocalNameShape(PackagePrefix(), s.shard, s.worker);
    assert PackageSlot(env)[..13] == PackagePrefix();
    assert PackageSlot(env)[10] == PackagePrefix()[10];
  }

  /** No API slot is a package slot, whatever the two environments. */
  lemma SlotNamespacesDisjoint(api: Env, package: Env)
    requires OwnsApiSlot(api) && OwnsPackageSlot(package)
    ensures ApiSlot(api) != PackageSlot(package)
  {
    ApiSlotKind(api);
    PackageSlotKind(package);
  }

  // ----- sibling workers of one invocation

  /** The environment of the worker in execution slot `pool` of a run with environment `env`. */
  function WorkerEnv(env: Env, pool: Text): Env {
    env[VitestPoolId := pool]
  }

  lemma WorkerIdOfSibling(env: Env, pool: Text)
    requires ResolveWorkerId(WorkerEnv(env, pool)).Ok? && Trim(pool) != []
    ensures ResolveWorkerId(WorkerEnv(env, pool)).value
         == if TestWorkerId in env then Trim(env[TestWorkerId]) else Trim(pool)
  {
  }

  lemma SharedReads(env: Env, pool: Text)
    ensures var e := WorkerEnv(env, pool);
      && ResolveGroup(e) == ResolveGroup(env) && IsCi(e) == IsCi(env)
      && (forall ci :: ResolveShardIndex(e, ci) == ResolveShardIndex(env, ci))
      && (TestWorkerId in e <==> TestWorkerId in env)
  {
    assert forall v :: v != VitestPoolId ==> ReadString(WorkerEnv(env, pool), v) == ReadString(env, v);
  }

  /**
   * Two API siblings own different databases exactly when no explicit worker id and no dedicated
   * group collapses them.
   */
  lemma ApiSiblingsDistinctIff(env: Env, p: Text, q: Text)
    requires Trim(p) != [] && Trim(q) != [] && Trim(p) != Trim(q)
    requires OwnsApiSlot(WorkerEnv(env, p)) && OwnsApiSlot(WorkerEnv(env, q))
    ensures ApiSlot(WorkerEnv(env, p)) != ApiSlot(WorkerEnv(env, q))
       <==> TestWorkerId !in env && !Dedicated(ResolveTestScope(WorkerEnv(env, p)).value.group)
  {
    SharedReads(env, p);
    SharedReads(env, q);
    if !Dedicated(ResolveTestScope(WorkerEnv(env, p)).value.group) {
      ApiSlotInjective(WorkerEnv(env, p), WorkerEnv(env, q));
      WorkerIdOfSibling(env, p);
      WorkerIdOfSibling(env, q);
    }
  }

  /** Package siblings own different databases exactly when no explicit worker id is set. */
  lemma PackageSiblingsDistinctIff(env: Env, p: Text, q: Text)
    requires Trim(p) != [] && Trim(q) != [] && Trim(p) != Trim(q)
    requires OwnsPackageSlot(WorkerEnv(env, p)) && OwnsPackageSlot(WorkerEnv(env, q))
    ensures PackageSlot(WorkerEnv(env, p)) != PackageSlot(WorkerEnv(env, q)) <==> TestWorkerId !in env
  {
    SharedReads(env, p);
    SharedReads(env, q);
    PackageSlotInjective(WorkerEnv(env, p), WorkerEnv(env, q));
    WorkerIdOfSibling(env, p);
    WorkerIdOfSibling(env, q);
  }

  lemma PlainWorker()
    ensures var env: Env := WorkerEnv(map[], [49]);
      && ResolveWorkerId(env) == Ok([49]) && ResolveShardIndex(env, false) == Ok(Lit("local")) && !IsCi(env)
  {
    assert Trim([49]) == [49];
  }

  lemma SafeSlotOfOne(prefix: Text)
    requires IsSafeName(prefix) && |prefix| <= 60
    ensures SlotName(prefix, false, Lit("local"), [49]) == prefix + [119, 49]
    ensures IsSafeName(prefix + [119, 49])
  {
    LocalNameShape(prefix, Lit("local"), [49]);
    assert Lit("w") == [119];
    assert [119] + [49] == [119, 49];
  }

  /** Without any settings, pool 1 of the database package gets `exam_test_db_w1`. */
  lemma PlainPackageSlot()
    ensures var env: Env := WorkerEnv(map[], [49]);
      OwnsPackageSlot(env) && PackageSlot(env) == PackagePrefix() + [119, 49]
  {
    var env: Env := WorkerEnv(map[], [49]);
    PlainWorker();
    SafeSlotOfOne(ApiPrefix());
    SafeSlotOfOne(PackagePrefix());
    assert ResolveTestScope(env)
        == Ok(Scope(Fast, WorkerDatabase, false, Lit("local"), [49], Some(ApiPrefix() + [119, 49])));
  }
}
