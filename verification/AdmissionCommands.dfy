/** The repository contract of the admission queue and the commands that run against it. */
module AdmissionCommands {
  import opened Prelude
  import opened AdmissionSchedule
  import opened T = AdmissionTable

  /** `NoFault` for an insert that runs, `Serialization` for SQLSTATE 40001 or 23505, `Unknown` for any other error. */
  datatype Fault = NoFault | Serialization | Unknown

  datatype JoinError = NotConverged | DriverFailure

  /**
   * What happens around one join: what others commit before each statement, the fresh ids, the
   * faults of its inserts.
   */
  datatype Company = Company(others: (nat, Table) -> Table, ids: nat -> Id, faults: nat -> Fault)

  /** Others keep the constraints, the memberships and the timestamps, and do not draw this join's ids. */
  ghost predicate Rely(company: Company) {
    forall k, t :: ValidTable(t) ==>
      var t' := company.others(k, t);
      ValidTable(t') && Evolves(t, t') && forall j: nat :: company.ids(j) in t' ==> company.ids(j) in t
  }

  /** Nobody else moves and no insert fails. */
  ghost predicate Quiet(company: Company) {
    && (forall k, t :: company.others(k, t) == t)
    && (forall k :: company.faults(k) == NoFault)
  }

  lemma GrowsFrom(start: Table, before: Table, after: Table, e: Exam, c: Candidate)
    requires Evolves(start, before) && Evolves(before, after)
    ensures Evolves(start, after)
    ensures |ConsumedIds(after, e, c)|
         >= |ConsumedIds(before, e, c)| + if HasActive(before, e, c) && !HasActive(after, e, c) then 1 else 0
  {
    EvolvesTransitive(start, before, after);
    ConsumedGrows(before, after, e, c);
  }

  /** Serialization failures among the first n inserts. */
  ghost function Failures(company: Company, n: nat): nat {
    if n == 0 then 0 else Failures(company, n - 1) + FailureAt(company, n - 1)
  }

  ghost function FailureAt(company: Company, round: nat): nat {
    if company.faults(round) == Serialization then 1 else 0
  }

  /** One round of a join on a table: None when it has to be repeated. */
  ghost function RoundSpec(company: Company, t: Table, e: Exam, c: Candidate, joinedAt: int, round: nat)
    : (Table, Option<Result<Row, JoinError>>)
  {
    var atInsert := company.others(2 * round, t);
    var id := company.ids(round);
    if company.faults(round) == Unknown then (atInsert, Some(Err(DriverFailure)))
    else if company.faults(round) == NoFault && !HasActive(atInsert, e, c) then
      (Join(atInsert, e, c, joinedAt, id), Some(Ok(Row(id, e, c, joinedAt, None, None, None))))
    else
      var atRead := company.others(2 * round + 1, atInsert);
      (atRead, if HasActive(atRead, e, c) then Some(Ok(T.FindActive(atRead, e, c).value)) else None)
  }

  /** What the join comes to, round by round, from the table it starts on. */
  ghost function JoinSpec(company: Company, t: Table, e: Exam, c: Candidate, joinedAt: int, round: nat)
    : (Table, Result<Row, JoinError>)
    decreases 3 - round
  {
    if round >= 3 then (t, Err(NotConverged))
    else
      var (t', r) := RoundSpec(company, t, e, c, joinedAt, round);
      if r.Some? then (t', r.value) else JoinSpec(company, t', e, c, joinedAt, round + 1)
  }

  /** Round k of the join is reached, on this table: every earlier one left no result. */
  ghost predicate ReachesRound(company: Company, t: Table, e: Exam, c: Candidate, joinedAt: int, from: nat, k: nat)
    decreases k - from
  {
    from == k ||
    (from < k && var (t', r) := RoundSpec(company, t, e, c, joinedAt, from);
       r.None? && ReachesRound(company, t', e, c, joinedAt, from + 1, k))
  }

  /**
   * An unknown error of an insert is thrown, at once and by no other cause, exactly when its
   * round is reached; the join gives up exactly when the third round leaves no result either.
   */
  lemma {:induction false} UnknownErrorThrownIff(
    company: Company, t: Table, e: Exam, c: Candidate, joinedAt: int, round: nat
  )
    requires round <= 3
    ensures JoinSpec(company, t, e, c, joinedAt, round).1 == Err(DriverFailure)
       <==> exists k ::
            round <= k < 3 && ReachesRound(company, t, e, c, joinedAt, round, k) && company.faults(k) == Unknown
    ensures JoinSpec(company, t, e, c, joinedAt, round).1 == Err(NotConverged)
       <==> ReachesRound(company, t, e, c, joinedAt, round, 3)
    decreases 3 - round
  {
    if round < 3 {
      var (t', r) := RoundSpec(company, t, e, c, joinedAt, round);
      assert ReachesRound(company, t, e, c, joinedAt, round, round);
      if r.None? {
        UnknownErrorThrownIff(company, t', e, c, joinedAt, round + 1);
        forall k | round < k <= 3
          ensures ReachesRound(company, t, e, c, joinedAt, round, k)
             <==> ReachesRound(company, t', e, c, joinedAt, round + 1, k)
        {
        }
      }
    }
  }

  /** No id of this join is taken yet. */
  ghost predicate FreshIds(company: Company, t: Table) {
    forall k: nat :: company.ids(k) !in t
  }

  lemma OthersKeep(company: Company, k: nat, t: Table)
    requires Rely(company) && ValidTable(t) && FreshIds(company, t)
    ensures var t' := company.others(k, t); ValidTable(t') && Evolves(t, t') && FreshIds(company, t')
  {
  }

  /** A round that inserts leaves the returned row as the candidate's active membership and takes no other id. */
  lemma InsertedRow(company: Company, t: Table, e: Exam, c: Candidate, joinedAt: int, round: nat)
    requires ValidTable(t) && FreshIds(company, t) && !HasActive(t, e, c)
    ensures var id := company.ids(round);
      var t' := Join(t, e, c, joinedAt, id);
      && ValidTable(t') && Evolves(t, t')
      && T.FindActive(t', e, c) == Some(Row(id, e, c, joinedAt, None, None, None))
      && forall k: nat :: company.ids(k) in t' ==> company.ids(k) == id
  {
    var id := company.ids(round);
    JoinValid(t, e, c, joinedAt, id);
    JoinEvolves(t, e, c, joinedAt, id);
    FindActiveUnique(Join(t, e, c, joinedAt, id), e, c, id);
  }

  /**
   * What one round keeps and what its result means. Without result it met a serialization
   * failure, or a membership of the candidate was consumed under it.
   */
  lemma RoundKeeps(company: Company, t: Table, e: Exam, c: Candidate, joinedAt: int, round: nat)
    requires Rely(company) && ValidTable(t) && FreshIds(company, t)
    ensures var (t', r) := RoundSpec(company, t, e, c, joinedAt, round);
      && ValidTable(t') && Evolves(t, t')
      && (r.None? ==> FreshIds(company, t'))
      && (r.None? ==> |ConsumedIds(t', e, c)| + FailureAt(company, round) >= |ConsumedIds(t, e, c)| + 1)
      && (r.Some? && r.value.Ok? ==> T.FindActive(t', e, c) == Some(r.value.value))
      && (forall k: nat :: company.ids(k) in t' ==> r.Some? && r.value.Ok? && r.value.value.id == company.ids(k))
      && (r.Some? && r.value.Err? ==> r.value.error == DriverFailure && company.faults(round) == Unknown)
  {
    var atInsert := company.others(2 * round, t);
    OthersKeep(company, 2 * round, t);
    if company.faults(round) == NoFault && !HasActive(atInsert, e, c) {
      InsertedRow(company, atInsert, e, c, joinedAt, round);
      EvolvesTransitive(t, atInsert, Join(atInsert, e, c, joinedAt, company.ids(round)));
    } else if company.faults(round) != Unknown {
      OthersKeep(company, 2 * round + 1, atInsert);
      ConsumedGrows(t, atInsert, e, c);
      GrowsFrom(t, atInsert, company.others(2 * round + 1, atInsert), e, c);
    }
  }

  lemma QuietRound(company: Company, t: Table, e: Exam, c: Candidate, joinedAt: int, round: nat)
    requires Quiet(company)
    ensures var (t', r) := RoundSpec(company, t, e, c, joinedAt, round);
      r.Some? && r.value.Ok? && t' == Join(t, e, c, joinedAt, company.ids(round))
  {
  }

  /** The repository contract; every method but JoinActive is one atomic statement. */
  class AdmissionRepository {
    var rows: Table

    ghost predicate Valid()
      reads this
    {
      ValidTable(rows)
    }

    constructor ()
      ensures Valid() && rows == map[]
    {
      rows := map[];
    }

    method FindActive(e: Exam, c: Candidate) returns (r: Option<Row>)
      requires Valid()
      ensures r == T.FindActive(rows, e, c)
    {
      if id :| id in rows && IsActive(rows, e, c, id) {
        FindActiveUnique(rows, e, c, id);
        r := Some(rows[id]);
      } else {
        r := None;
      }
    }

    method EarliestJoinedAt(e: Exam) returns (a: Option<int>)
      requires Valid()
      ensures a == T.EarliestJoinedAt(rows, e)
    {
      if id :| id in rows && IsMember(rows, e, id) {
        AnchorExists(rows, e, id);
        var first :| first in rows && IsMember(rows, e, first) &&
          forall i :: i in rows && IsMember(rows, e, i) ==> rows[first].joinedAt <= rows[i].joinedAt;
        AnchorUnique(rows, e, rows[first].joinedAt);
        a := Some(rows[first].joinedAt);
      } else {
        a := None;
      }
    }

    method CountAllAhead(e: Exam, joinedAt: int, id: Id) returns (n: nat)
      ensures n == |AheadIds(rows, e, joinedAt, id)|
    {
      n := 0;
      var todo := rows.Keys;
      ghost var ahead := AheadIds(rows, e, joinedAt, id);
      while todo != {}
        invariant todo <= rows.Keys && n == |ahead - todo|
        decreases |todo|
      {
        var i :| i in todo;
        TakeOne(ahead, todo, i);
        if rows[i].exam == e && Ahead(rows[i].joinedAt, i, joinedAt, id) {
          n := n + 1;
        }
        todo := todo - {i};
      }
      assert ahead - todo == ahead;
    }

    method CountActiveAhead(e: Exam, joinedAt: int, id: Id) returns (n: nat)
      ensures n == |ActiveAheadIds(rows, e, joinedAt, id)|
    {
      n := 0;
      var todo := rows.Keys;
      ghost var ahead := ActiveAheadIds(rows, e, joinedAt, id);
      while todo != {}
        invariant todo <= rows.Keys && n == |ahead - todo|
        decreases |todo|
      {
        var i :| i in todo;
        TakeOne(ahead, todo, i);
        if rows[i].exam == e && rows[i].consumedAt.None? && Ahead(rows[i].joinedAt, i, joinedAt, id) {
          n := n + 1;
        }
        todo := todo - {i};
      }
      assert ahead - todo == ahead;
    }

    /** INSERT … ON CONFLICT DO NOTHING on the one-active-membership index: the row inserted, if any. */
    method InsertActive(e: Exam, c: Candidate, joinedAt: int, newId: Id) returns (r: Option<Row>)
      requires Valid() && newId !in rows
      modifies this
      ensures Valid()
      ensures rows == Join(old(rows), e, c, joinedAt, newId)
      ensures r.None? <==> HasActive(old(rows), e, c)
      ensures r.Some? ==> T.FindActive(rows, e, c) == r && r.value == Row(newId, e, c, joinedAt, None, None, None)
    {
      JoinValid(rows, e, c, joinedAt, newId);
      var existing := FindActive(e, c);
      if existing.Some? {
        return None;
      }
      var row := Row(newId, e, c, joinedAt, None, None, None);
      rows := rows[newId := row];
      FindActiveUnique(rows, e, c, newId);
      r := Some(row);
    }

    /** Other transactions commit what they commit. */
    method Interfere(company: Company, moment: nat)
      requires Valid() && Rely(company)
      modifies this
      ensures Valid() && Evolves(old(rows), rows)
      ensures rows == company.others(moment, old(rows))
    {
      rows := company.others(moment, rows);
    }

    /**
     * Insert, and on a conflict or a serialization failure read; up to three rounds, with
     * others moving before every statement. A row returned is the candidate's active
     * membership; at most one row is inserted, and it is the one returned; every other
     * membership is kept. Not converging takes three rounds each of which met a
     * serialization failure or saw a membership of the candidate consumed under it.
     */
    method JoinActive(e: Exam, c: Candidate, joinedAt: int, company: Company) returns (r: Result<Row, JoinError>)
      requires Valid() && Rely(company) && FreshIds(company, rows)
      modifies this
      ensures Valid() && Evolves(old(rows), rows)
      ensures r.Ok? ==> T.FindActive(rows, e, c) == Some(r.value)
      ensures forall k: nat :: company.ids(k) in rows ==> r.Ok? && r.value.id == company.ids(k)
      ensures r == Err(NotConverged) ==>
        |ConsumedIds(rows, e, c)| + Failures(company, 3) >= |ConsumedIds(old(rows), e, c)| + 3
      ensures r == Err(DriverFailure) ==> exists k: nat :: k < 3 && company.faults(k) == Unknown
      ensures Quiet(company) ==> r.Ok? && rows == Join(old(rows), e, c, joinedAt, company.ids(0))
      ensures (rows, r) == JoinSpec(company, old(rows), e, c, joinedAt, 0)
    {
      for attempt := 0 to 3
        invariant Valid() && Evolves(old(rows), rows) && FreshIds(company, rows)
        invariant |ConsumedIds(rows, e, c)| + Failures(company, attempt) >= |ConsumedIds(old(rows), e, c)| + attempt
        invariant Quiet(company) ==> attempt == 0 && rows == old(rows)
        invariant JoinSpec(company, rows, e, c, joinedAt, attempt) == JoinSpec(company, old(rows), e, c, joinedAt, 0)
      {
        ghost var before := rows;
        var settled := JoinRound(e, c, joinedAt, company, attempt);
        RoundKeeps(company, before, e, c, joinedAt, attempt);
        EvolvesTransitive(old(rows), before, rows);
        if Quiet(company) {
          QuietRound(company, before, e, c, joinedAt, attempt);
        }
        if settled.Some? {
          return settled.value;
        }
      }
      return Err(NotConverged);
    }

    /** One round as the code runs it. */
    method JoinRound(e: Exam, c: Candidate, joinedAt: int, company: Company, attempt: nat)
      returns (r: Option<Result<Row, JoinError>>)
      requires Valid() && Rely(company) && FreshIds(company, rows)
      modifies this
      ensures Valid() && (rows, r) == RoundSpec(company, old(rows), e, c, joinedAt, attempt)
    {
      OthersKeep(company, 2 * attempt, rows);
      Interfere(company, 2 * attempt);
      if company.faults(attempt) == Unknown {
        return Some(Err(DriverFailure));
      }
      if company.faults(attempt) == NoFault {
        var inserted := InsertActive(e, c, joinedAt, company.ids(attempt));
        if inserted.Some? {
          return Some(Ok(inserted.value));
        }
      }
      Interfere(company, 2 * attempt + 1);
      var existing := FindActive(e, c);
      r := if existing.Some? then Some(Ok(existing.value)) else None;
    }

    method AdmitOnce(id: Id, at: int) returns (r: Option<Row>)
      requires Valid()
      modifies this
      ensures Valid()
      ensures rows == T.AdmitOnce(old(rows), id, at)
      ensures r.Some? <==> id in old(rows) && old(rows)[id].admittedAt.None?
      ensures r.Some? ==> r.value == rows[id]
    {
      AdmitOnceKeeps(rows, id, at);
      if id in rows && rows[id].admittedAt.None? {
        rows := rows[id := rows[id].(admittedAt := Some(at))];
        r := Some(rows[id]);
      } else {
        r := None;
      }
    }

    /** None covers both zero rows and a row the admitted-before-consumed check refuses. */
    method ConsumeActive(e: Exam, c: Candidate, at: int, attempt: AttemptId) returns (r: Option<Row>)
      requires Valid()
      modifies this
      ensures Valid()
      ensures rows == T.ConsumeActive(old(rows), e, c, at, attempt)
      ensures r.Some? <==> Consumable(old(rows), e, c)
      ensures r.Some? ==> r.value.id in rows && r.value == rows[r.value.id]
      ensures r.Some? ==> IsActive(old(rows), e, c, r.value.id) && r.value.consumedAttempt == Some(attempt)
    {
      ConsumeActiveKeeps(rows, e, c, at, attempt);
      var active := FindActive(e, c);
      if active.Some? && active.value.admittedAt.Some? {
        var consumed := active.value.(consumedAt := Some(at), consumedAttempt := Some(attempt));
        rows := rows[consumed.id := consumed];
        r := Some(consumed);
      } else {
        r := None;
      }
    }
  }

  // ----- specification of one uninterrupted reconciliation

  /** The membership the reconciliation may admit, when it may. */
  ghost predicate Admits(t: Table, p: Policy, e: Exam, c: Candidate, now: int) {
    var active := T.FindActive(t, e, c);
    && active.Some? && active.value.admittedAt.None?
    && active.value.id in t && active.value.exam == e
    && EligibleIn(t, p, active.value.id, now)
  }

  ghost function Reconcile(t: Table, p: Policy, e: Exam, c: Candidate, now: int): Table {
    if Admits(t, p, e, c, now) then T.AdmitOnce(t, T.FindActive(t, e, c).value.id, now) else t
  }

  lemma ReconcileValid(t: Table, p: Policy, e: Exam, c: Candidate, now: int)
    requires ValidTable(t)
    ensures ValidTable(Reconcile(t, p, e, c, now)) && SameKeys(t, Reconcile(t, p, e, c, now))
  {
    if Admits(t, p, e, c, now) {
      AdmitOnceKeeps(t, T.FindActive(t, e, c).value.id, now);
    }
  }

  /** The gate opens after a reconciliation exactly when it was open or the reconciliation admits. */
  lemma GateAfterReconcile(t: Table, p: Policy, e: Exam, c: Candidate, now: int)
    requires ValidTable(t)
    ensures Consumable(Reconcile(t, p, e, c, now), e, c) <==> Consumable(t, e, c) || Admits(t, p, e, c, now)
  {
    ReconcileValid(t, p, e, c, now);
    if Admits(t, p, e, c, now) {
      FindActiveUnique(Reconcile(t, p, e, c, now), e, c, T.FindActive(t, e, c).value.id);
    }
  }

  // ----- commands

  /** Joining is idempotent: with nobody else about, joining again returns the same membership and changes nothing. */
  method JoinAdmissionQueue(repo: AdmissionRepository, e: Exam, c: Candidate, now: int, company: Company)
    returns (r: Result<Row, JoinError>)
    requires repo.Valid() && Rely(company) && FreshIds(company, repo.rows)
    modifies repo
    ensures repo.Valid() && Evolves(old(repo.rows), repo.rows)
    ensures r.Ok? ==> T.FindActive(repo.rows, e, c) == Some(r.value)
    ensures Quiet(company) ==> r.Ok? && repo.rows == Join(old(repo.rows), e, c, now, company.ids(0))
    ensures Quiet(company) && HasActive(old(repo.rows), e, c) ==> repo.rows == old(repo.rows)
  {
    r := repo.JoinActive(e, c, now, company);
  }

  method ReconcileAdmission(repo: AdmissionRepository, p: Policy, e: Exam, c: Candidate, now: int)
    returns (r: Option<Row>)
    requires repo.Valid()
    modifies repo
    ensures repo.Valid()
    ensures repo.rows == Reconcile(old(repo.rows), p, e, c, now)
    ensures r == T.FindActive(repo.rows, e, c)
  {
    var active := repo.FindActive(e, c);
    if active.None? || active.value.admittedAt.Some? {
      return active;
    }
    var anchor := repo.EarliestJoinedAt(e);
    var released := ComputeBatchRelease(anchor, now, p).releasedBatches;
    var ahead := repo.CountAllAhead(e, active.value.joinedAt, active.value.id);
    if ComputeBatchNumber(ahead + 1, p) > released {
      return active;
    }
    var admitted := repo.AdmitOnce(active.value.id, now);
    r := if admitted.Some? then admitted else active;
    FindActiveUnique(repo.rows, e, c, active.value.id);
  }

  datatype GateError = QueueAdmissionRequired

  /** The start gate: passes exactly when the candidate's active membership is admitted, now or before. */
  method EnsureStartAdmission(repo: AdmissionRepository, p: Policy, e: Exam, c: Candidate, now: int)
    returns (r: Result<Row, GateError>)
    requires repo.Valid()
    modifies repo
    ensures repo.Valid()
    ensures repo.rows == Reconcile(old(repo.rows), p, e, c, now)
    ensures r.Ok? <==> Consumable(repo.rows, e, c)
    ensures r.Ok? ==> T.FindActive(repo.rows, e, c) == Some(r.value) && r.value.admittedAt.Some?
    ensures r.Ok? <==> Consumable(old(repo.rows), e, c) || Admits(old(repo.rows), p, e, c, now)
  {
    GateAfterReconcile(repo.rows, p, e, c, now);
    var admitted := ReconcileAdmission(repo, p, e, c, now);
    if admitted.None? || admitted.value.admittedAt.None? {
      return Err(QueueAdmissionRequired);
    }
    return Ok(admitted.value);
  }

  datatype QueueView = QueueView(
    state: AdmissionState,
    position: nat,
    waitCount: nat,
    estimatedWaitSeconds: nat,
    ready: bool)

  /** The table at the k-th statement of a reader that changes nothing itself. */
  ghost function Seen(company: Company, t: Table, k: nat): Table {
    company.others(k, if k == 0 then t else Seen(company, t, k - 1))
  }

  lemma {:induction false} SeenKeeps(company: Company, t: Table, k: nat)
    requires Rely(company) && ValidTable(t)
    ensures forall i: nat :: i <= k ==> ValidTable(Seen(company, t, i)) && Evolves(t, Seen(company, t, i))
    decreases k
  {
    if k > 0 {
      SeenKeeps(company, t, k - 1);
      EvolvesTransitive(t, Seen(company, t, k - 1), Seen(company, t, k));
    }
  }

  lemma {:induction false} QuietSeen(company: Company, t: Table, k: nat)
    requires Quiet(company)
    ensures Seen(company, t, k) == t
    decreases k
  {
    if k > 0 {
      QuietSeen(company, t, k - 1);
    }
  }

  ghost function WaitCountOf(position: nat, anchor: Option<int>, now: int, p: Policy): nat {
    Max(0, position - ComputeBatchRelease(anchor, now, p).releasedCount)
  }

  ghost predicate PreviewOf(
    v: QueueView, r: Row, anchor: Option<int>, ordinal: nat, position: nat, now: int, p: Policy
  ) {
    && StateShows(v.state, r) && v.state != Consumed
    && (v.ready <==> r.admittedAt.Some?)
    && v.position == position
    && v.waitCount == WaitCountOf(position, anchor, now, p)
    && v.estimatedWaitSeconds == if v.ready then 0 else EstimatedWaitSeconds(anchor, ordinal, now, p)
  }

  /** The four statements of a preview, with others moving before each; the last two only for a row that was found. */
  method ReadQueue(repo: AdmissionRepository, e: Exam, c: Candidate, company: Company)
    returns (active: Option<Row>, anchor: Option<int>, ordinal: nat, position: nat)
    requires repo.Valid() && Rely(company)
    modifies repo
    ensures repo.Valid() && Evolves(old(repo.rows), repo.rows)
    ensures active == T.FindActive(Seen(company, old(repo.rows), 0), e, c)
    ensures anchor == T.EarliestJoinedAt(Seen(company, old(repo.rows), 1), e)
    ensures active.Some? ==>
      && active.value.consumedAt.None?
      && ordinal == Ordinal(Seen(company, old(repo.rows), 2), e, active.value.joinedAt, active.value.id)
      && position == ActivePosition(Seen(company, old(repo.rows), 3), e, active.value.joinedAt, active.value.id)
    ensures Quiet(company) ==> repo.rows == old(repo.rows)
  {
    ghost var start := repo.rows;
    SeenKeeps(company, start, 3);
    ordinal, position := 0, 0;
    repo.Interfere(company, 0);
    active := repo.FindActive(e, c);
    repo.Interfere(company, 1);
    assert repo.rows == Seen(company, start, 1);
    anchor := repo.EarliestJoinedAt(e);
    if active.Some? {
      ordinal, position := ReadPlace(repo, e, active.value.joinedAt, active.value.id, company);
      assert repo.rows == Seen(company, start, 3);
    }
  }

  /** The schedule ordinal and the active position of a row, by two statements. */
  method ReadPlace(repo: AdmissionRepository, e: Exam, joinedAt: int, id: Id, company: Company)
    returns (ordinal: nat, position: nat)
    requires repo.Valid() && Rely(company)
    modifies repo
    ensures repo.Valid()
    ensures var atOrdinal := company.others(2, old(repo.rows));
      && repo.rows == company.others(3, atOrdinal)
      && ordinal == Ordinal(atOrdinal, e, joinedAt, id)
      && position == ActivePosition(repo.rows, e, joinedAt, id)
  {
    repo.Interfere(company, 2);
    var ahead := repo.CountAllAhead(e, joinedAt, id);
    repo.Interfere(company, 3);
    var activeAhead := repo.CountActiveAhead(e, joinedAt, id);
    ordinal, position := ahead + 1, activeAhead + 1;
  }

  /** The view is put together from what each of the four statements saw. */
  method PreviewAdmissionStatus(repo: AdmissionRepository, p: Policy, e: Exam, c: Candidate, now: int, company: Company)
    returns (v: QueueView)
    requires repo.Valid() && Rely(company)
    modifies repo
    ensures repo.Valid() && Evolves(old(repo.rows), repo.rows)
    ensures var active := T.FindActive(Seen(company, old(repo.rows), 0), e, c);
      if active.None? then v == QueueView(Waiting, 1, 0, 0, false)
      else PreviewOf(v, active.value, T.EarliestJoinedAt(Seen(company, old(repo.rows), 1), e),
             Ordinal(Seen(company, old(repo.rows), 2), e, active.value.joinedAt, active.value.id),
             ActivePosition(Seen(company, old(repo.rows), 3), e, active.value.joinedAt, active.value.id), now, p)
    ensures Quiet(company) ==> repo.rows == old(repo.rows)
  {
    var active, anchor, ordinal, position := ReadQueue(repo, e, c, company);
    if active.None? {
      return QueueView(Waiting, 1, 0, 0, false);
    }
    v := ComposeView(active.value, anchor, ordinal, position, now, p);
  }

  method ComposeView(r: Row, anchor: Option<int>, ordinal: nat, position: nat, now: int, p: Policy)
    returns (v: QueueView)
    requires r.consumedAt.None?
    ensures PreviewOf(v, r, anchor, ordinal, position, now, p)
  {
    var released := ComputeBatchRelease(anchor, now, p);
    var state := DeriveAdmissionState(r);
    var untilReady := Max(0, ComputeBatchNumber(ordinal, p) - released.releasedBatches);
    var wait: nat := 0;
    if state == Waiting {
      wait := untilReady * p.batchInterval;
    }
    return QueueView(state, position, Max(0, position - released.releasedCount), wait, state == Admitted);
  }

  // ----- the wait estimate, over the table

  /**
   * A waiting candidate told to wait e seconds at or after the anchor is admitted by
   * reconciling e seconds later, and was not admissible one interval before that.
   */
  lemma ReportedWaitIsExact(t: Table, p: Policy, e: Exam, c: Candidate, now: int)
    requires ValidTable(t) && HasActive(t, e, c)
    requires T.FindActive(t, e, c).value.admittedAt.None?
    requires T.EarliestJoinedAt(t, e).Some? && T.EarliestJoinedAt(t, e).value <= now
    ensures var active := T.FindActive(t, e, c).value;
      var wait := EstimatedWaitSeconds(T.EarliestJoinedAt(t, e), Ordinal(t, e, active.joinedAt, active.id), now, p);
      && Consumable(Reconcile(t, p, e, c, now + wait * 1000), e, c)
      && (wait > 0 ==> !Admits(t, p, e, c, now + (wait - p.batchInterval) * 1000))
  {
    var active := T.FindActive(t, e, c).value;
    var ordinal := Ordinal(t, e, active.joinedAt, active.id);
    WaitEstimateExact(T.EarliestJoinedAt(t, e).value, ordinal, now, p);
    var later := now + EstimatedWaitSeconds(T.EarliestJoinedAt(t, e), ordinal, now, p) * 1000;
    GateAfterReconcile(t, p, e, c, later);
  }
}
