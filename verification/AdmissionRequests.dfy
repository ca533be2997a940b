/** What the commands and the interleaved protocol have to do with each other. */
module AdmissionRequests {
  import opened Prelude
  import opened AdmissionSchedule
  import opened T = AdmissionTable
  import opened AdmissionCommands
  import opened AdmissionProtocol
  import opened AdmissionOrder

  /** The steps of one reconciliation request. */
  function RequestSteps(pid: Pid, e: Exam, c: Candidate, now: int): seq<Label> {
    [ReadActive(pid, e, c, now), ReadAnchor(pid), ReadOrdinal(pid), DecideAndAdmit(pid)]
  }

  lemma ExecFour(pol: Policies, w: World, a: Label, b: Label, c: Label, d: Label)
    ensures Exec(pol, w, [a, b, c, d]) == Next(pol, Next(pol, Next(pol, Next(pol, w, a), b), c), d)
  {
    var w1 := Next(pol, w, a);
    var w2 := Next(pol, w1, b);
    var w3 := Next(pol, w2, c);
    var w4 := Next(pol, w3, d);
    var abcd, bcd, cd := [a, b, c, d], [b, c, d], [c, d];
    assert Exec(pol, w, abcd) == Exec(pol, w1, bcd) by {
      assert abcd[1..] == bcd;
    }
    assert Exec(pol, w1, bcd) == Exec(pol, w2, cd) by {
      assert bcd[1..] == cd;
    }
    assert Exec(pol, w2, cd) == Exec(pol, w3, [d]) by {
      assert cd[1..] == [d];
    }
    assert Exec(pol, w3, [d]) == Exec(pol, w4, []);
  }

  /** A row that needs no decision ends the request at its first read. */
  lemma SettledRequest(pol: Policies, w: World, pid: Pid, e: Exam, c: Candidate, now: int)
    requires ProcOf(w, pid).Idle?
    requires T.FindActive(w.table, e, c).None? || T.FindActive(w.table, e, c).value.admittedAt.Some?
    ensures Exec(pol, w, RequestSteps(pid, e, c, now))
         == SetProc(w, pid, Returned(e, c, now, T.FindActive(w.table, e, c)))
  {
    ExecFour(pol, w, ReadActive(pid, e, c, now), ReadAnchor(pid), ReadOrdinal(pid), DecideAndAdmit(pid));
  }

  lemma WaitingReads(pol: Policies, w: World, pid: Pid, e: Exam, c: Candidate, now: int)
    requires ProcOf(w, pid).Idle?
    requires T.FindActive(w.table, e, c).Some? && T.FindActive(w.table, e, c).value.admittedAt.None?
    ensures var r := T.FindActive(w.table, e, c).value;
      Next(pol, Next(pol, Next(pol, w, ReadActive(pid, e, c, now)), ReadAnchor(pid)), ReadOrdinal(pid))
      == SetProc(w, pid,
         GotOrdinal(e, c, now, r, T.EarliestJoinedAt(w.table, e), Ordinal(w.table, e, r.joinedAt, r.id)))
  {
    var r := T.FindActive(w.table, e, c).value;
    var w1 := Next(pol, w, ReadActive(pid, e, c, now));
    assert w1 == SetProc(w, pid, GotRow(e, c, now, r));
    var w2 := Next(pol, w1, ReadAnchor(pid));
    assert w2 == SetProc(w, pid, GotAnchor(e, c, now, r, T.EarliestJoinedAt(w.table, e)));
  }

  lemma WaitingRequest(pol: Policies, w: World, pid: Pid, e: Exam, c: Candidate, now: int)
    requires ProcOf(w, pid).Idle?
    requires T.FindActive(w.table, e, c).Some? && T.FindActive(w.table, e, c).value.admittedAt.None?
    ensures var r := T.FindActive(w.table, e, c).value;
      var q := GotOrdinal(e, c, now, r, T.EarliestJoinedAt(w.table, e), Ordinal(w.table, e, r.joinedAt, r.id));
      Exec(pol, w, RequestSteps(pid, e, c, now)) == NextDecide(pol, SetProc(w, pid, q), pid, q)
  {
    WaitingReads(pol, w, pid, e, c, now);
    ExecFour(pol, w, ReadActive(pid, e, c, now), ReadAnchor(pid), ReadOrdinal(pid), DecideAndAdmit(pid));
  }

  /** Run without interruption, the steps of a request do what reconcileAdmission does, and return what it returns. */
  lemma UninterruptedRequestIsReconcile(pol: Policies, w: World, pid: Pid, e: Exam, c: Candidate, now: int)
    requires ValidTable(w.table) && ProcOf(w, pid).Idle?
    ensures var w' := Exec(pol, w, RequestSteps(pid, e, c, now));
      && w'.table == Reconcile(w.table, pol(e), e, c, now)
      && ProcOf(w', pid) == Returned(e, c, now, T.FindActive(w'.table, e, c))
      && w'.starts == w.starts
  {
    var active := T.FindActive(w.table, e, c);
    if active.None? || active.value.admittedAt.Some? {
      SettledRequest(pol, w, pid, e, c, now);
    } else {
      WaitingRequest(pol, w, pid, e, c, now);
      if Admits(w.table, pol(e), e, c, now) {
        AdmitOnceKeeps(w.table, active.value.id, now);
        FindActiveUnique(T.AdmitOnce(w.table, active.value.id, now), e, c, active.value.id);
      }
    }
  }

  ghost function ReportedWait(t: Table, p: Policy, e: Exam, r: Row, now: int): nat {
    EstimatedWaitSeconds(T.EarliestJoinedAt(t, e), Ordinal(t, e, r.joinedAt, r.id), now, p)
  }

  /** Whether a membership is due at an instant, asked after any run, is what its first schedule says. */
  lemma DueAsScheduled(pol: Policies, w: World, labels: seq<Label>, e: Exam, id: Id, at: int)
    requires ReachableInOrder(pol, w) && JoinsBehindRun(pol, w, labels) && IsMember(w.table, e, id)
    ensures var later := Exec(pol, w, labels).table;
      && ValidTable(later) && IsMember(later, e, id)
      && (EligibleIn(later, pol(e), id, at)
          <==> Eligible(T.EarliestJoinedAt(w.table, e), Ordinal(w.table, e, w.table[id].joinedAt, id), at, pol(e)))
  {
    InOrderInvariant(pol, w);
    RunKeepsInvariant(pol, w, labels);
    ReadsOutliveInterleaving(pol, w, labels, e, id);
  }

  lemma DueOpensGate(t: Table, p: Policy, e: Exam, c: Candidate, id: Id, at: int)
    requires ValidTable(t) && IsActive(t, e, c, id) && EligibleIn(t, p, id, at)
    ensures Consumable(Reconcile(t, p, e, c, at), e, c)
  {
    FindActiveUnique(t, e, c, id);
    GateAfterReconcile(t, p, e, c, at);
  }

  /** A schedule that makes the wait exact keeps it exact in every later table. */
  lemma ExactWaitSurvives(
    pol: Policies, w: World, labels: seq<Label>, e: Exam, c: Candidate, id: Id, due: int, early: int
  )
    requires ReachableInOrder(pol, w) && JoinsBehindRun(pol, w, labels) && IsMember(w.table, e, id)
    requires Eligible(T.EarliestJoinedAt(w.table, e), Ordinal(w.table, e, w.table[id].joinedAt, id), due, pol(e))
    ensures var later := Exec(pol, w, labels).table;
      && IsMember(later, e, id)
      && (IsActive(later, e, c, id) ==> Consumable(Reconcile(later, pol(e), e, c, due), e, c))
      && (EligibleIn(later, pol(e), id, early)
          <==> Eligible(T.EarliestJoinedAt(w.table, e), Ordinal(w.table, e, w.table[id].joinedAt, id), early, pol(e)))
  {
    DueAsScheduled(pol, w, labels, e, id, due);
    DueAsScheduled(pol, w, labels, e, id, early);
    var later := Exec(pol, w, labels).table;
    if IsActive(later, e, c, id) {
      DueOpensGate(later, pol(e), e, c, id, due);
    }
  }

  /**
   * The wait reported to a waiting candidate outlives whatever other requests do in the
   * meantime: after any run, reconciling at the promised instant opens the gate for a
   * membership that is still active, and one interval earlier it is not yet due.
   */
  lemma WaitPromiseSurvivesRuns(pol: Policies, w: World, labels: seq<Label>, e: Exam, c: Candidate, now: int)
    requires ReachableInOrder(pol, w) && JoinsBehindRun(pol, w, labels)
    requires T.FindActive(w.table, e, c).Some? && T.FindActive(w.table, e, c).value.admittedAt.None?
    requires T.EarliestJoinedAt(w.table, e).Some? && T.EarliestJoinedAt(w.table, e).value <= now
    ensures var r := T.FindActive(w.table, e, c).value;
      var wait := ReportedWait(w.table, pol(e), e, r, now);
      var later := Exec(pol, w, labels).table;
      && r.id in later
      && (IsActive(later, e, c, r.id) ==> Consumable(Reconcile(later, pol(e), e, c, now + wait * 1000), e, c))
      && (wait > 0 ==> !EligibleIn(later, pol(e), r.id, now + (wait - pol(e).batchInterval) * 1000))
  {
    var r := T.FindActive(w.table, e, c).value;
    assert IsMember(w.table, e, r.id) && w.table[r.id] == r by {
      InOrderInvariant(pol, w);
    }
    var anchor, ordinal := T.EarliestJoinedAt(w.table, e), Ordinal(w.table, e, r.joinedAt, r.id);
    var wait := ReportedWait(w.table, pol(e), e, r, now);
    var due, early := now + wait * 1000, now + (wait - pol(e).batchInterval) * 1000;
    assert Eligible(anchor, ordinal, due, pol(e)) && (wait > 0 ==> !Eligible(anchor, ordinal, early, pol(e))) by {
      WaitEstimateExact(anchor.value, ordinal, now, pol(e));
    }
    ExactWaitSurvives(pol, w, labels, e, c, r.id, due, early);
  }

  // ----- a preview whose reads interleave with other requests

  type Moves = nat -> seq<Label>

  /** The world at the k-th statement of a reader, others having taken `moves(i)` before the i-th. */
  ghost function WorldAt(pol: Policies, w: World, moves: Moves, k: nat): World {
    Exec(pol, if k == 0 then w else WorldAt(pol, w, moves, k - 1), moves(k))
  }

  /** The others of the company are runs of the protocol with joins in order. */
  ghost predicate Watched(pol: Policies, w: World, moves: Moves, company: Company, k: nat) {
    && Seen(company, w.table, k) == WorldAt(pol, w, moves, k).table
    && JoinsBehindRun(pol, if k == 0 then w else WorldAt(pol, w, moves, k - 1), moves(k))
    && (k > 0 ==> Watched(pol, w, moves, company, k - 1))
  }

  /** From the first statement on, the schedule of a membership is the same at every statement. */
  lemma {:induction false} WatchedKeepsSchedule(
    pol: Policies, w: World, moves: Moves, company: Company, k: nat, e: Exam, id: Id
  )
    requires Inv(pol, w) && Watched(pol, w, moves, company, k)
    requires IsMember(WorldAt(pol, w, moves, 0).table, e, id)
    ensures var t0, t := WorldAt(pol, w, moves, 0).table, WorldAt(pol, w, moves, k).table;
      && Inv(pol, WorldAt(pol, w, moves, k)) && IsMember(t, e, id) && t[id].joinedAt == t0[id].joinedAt
      && T.EarliestJoinedAt(t, e) == T.EarliestJoinedAt(t0, e)
      && Ordinal(t, e, t0[id].joinedAt, id) == Ordinal(t0, e, t0[id].joinedAt, id)
    decreases k
  {
    if k == 0 {
      RunKeepsInvariant(pol, w, moves(0));
    } else {
      WatchedKeepsSchedule(pol, w, moves, company, k - 1, e, id);
      RunKeepsInvariant(pol, WorldAt(pol, w, moves, k - 1), moves(k));
    }
  }

  /**
   * The wait of a preview whose four statements interleave with other requests is the wait of
   * the table at each of them: the anchor seen by the second statement and the ordinal seen by
   * the third belong to one schedule.
   */
  lemma PreviewWaitIsTheWait(
    pol: Policies, w: World, moves: Moves, company: Company, e: Exam, c: Candidate, now: int, v: QueueView,
    position: nat, k: nat
  )
    requires ReachableInOrder(pol, w) && Watched(pol, w, moves, company, 3) && k <= 3
    requires T.FindActive(Seen(company, w.table, 0), e, c).Some?
    requires var r := T.FindActive(Seen(company, w.table, 0), e, c).value;
      PreviewOf(v, r, T.EarliestJoinedAt(Seen(company, w.table, 1), e),
                Ordinal(Seen(company, w.table, 2), e, r.joinedAt, r.id), position, now, pol(e))
    ensures var r := T.FindActive(Seen(company, w.table, 0), e, c).value;
      !v.ready ==> v.estimatedWaitSeconds == ReportedWait(Seen(company, w.table, k), pol(e), e, r, now)
  {
    InOrderInvariant(pol, w);
    var r := T.FindActive(Seen(company, w.table, 0), e, c).value;
    SeenSchedule(pol, w, moves, company, 0, e, c);
    SeenSchedule(pol, w, moves, company, 1, e, c);
    SeenSchedule(pol, w, moves, company, 2, e, c);
    SeenSchedule(pol, w, moves, company, k, e, c);
  }

  lemma {:induction false} WatchedEarlier(pol: Policies, w: World, moves: Moves, company: Company, k: nat, j: nat)
    requires Watched(pol, w, moves, company, k) && j <= k
    ensures Watched(pol, w, moves, company, j)
    decreases k
  {
    if j < k {
      WatchedEarlier(pol, w, moves, company, k - 1, j);
    }
  }

  /** The anchor and the ordinal of the row the first statement found, as the k-th statement sees them. */
  lemma SeenSchedule(pol: Policies, w: World, moves: Moves, company: Company, k: nat, e: Exam, c: Candidate)
    requires Inv(pol, w) && Watched(pol, w, moves, company, 3) && k <= 3
    requires T.FindActive(Seen(company, w.table, 0), e, c).Some?
    ensures var r := T.FindActive(Seen(company, w.table, 0), e, c).value;
      && T.EarliestJoinedAt(Seen(company, w.table, k), e) == T.EarliestJoinedAt(Seen(company, w.table, 0), e)
      && Ordinal(Seen(company, w.table, k), e, r.joinedAt, r.id)
      == Ordinal(Seen(company, w.table, 0), e, r.joinedAt, r.id)
  {
    WatchedEarlier(pol, w, moves, company, 3, 0);
    WatchedEarlier(pol, w, moves, company, 3, k);
    var t0 := WorldAt(pol, w, moves, 0).table;
    var r := T.FindActive(t0, e, c).value;
    assert IsMember(t0, e, r.id) && t0[r.id] == r by {
      RunKeepsInvariant(pol, w, moves(0));
    }
    WatchedKeepsSchedule(pol, w, moves, company, k, e, r.id);
  }

  // ----- a join among protocol steps

  /**
   * The protocol steps of a join: what others do before each of its statements, and its own
   * insert as the last step if it takes effect. An insert that meets a conflict is no step.
   */
  ghost function JoinLabels(
    pol: Policies, w: World, moves: Moves, company: Company, e: Exam, c: Candidate, at: int, round: nat
  ): seq<Label>
    decreases 3 - round
  {
    if round >= 3 then []
    else
      var before, between := moves(2 * round), moves(2 * round + 1);
      var w1 := Exec(pol, w, before);
      if company.faults(round) == Unknown then before
      else if company.faults(round) == NoFault && !HasActive(w1.table, e, c) then
        before + [JoinQueue(e, c, at, company.ids(round))]
      else
        var w2 := Exec(pol, w1, between);
        if HasActive(w2.table, e, c) then before + between
        else before + (between + JoinLabels(pol, w2, moves, company, e, c, at, round + 1))
  }

  /** The others of the company are the given runs, at the tables the join meets. */
  ghost predicate Follows(pol: Policies, w: World, moves: Moves, company: Company, e: Exam, c: Candidate, round: nat)
    decreases 3 - round
  {
    round < 3 ==>
      var w1 := Exec(pol, w, moves(2 * round));
      var w2 := Exec(pol, w1, moves(2 * round + 1));
      && company.others(2 * round, w.table) == w1.table
      && company.others(2 * round + 1, w1.table) == w2.table
      && Follows(pol, w2, moves, company, e, c, round + 1)
  }

  lemma {:induction false} ExecConcat(pol: Policies, w: World, a: seq<Label>, b: seq<Label>)
    ensures Exec(pol, w, a + b) == Exec(pol, Exec(pol, w, a), b)
    decreases |a|
  {
    if a == [] {
      assert a + b == b;
    } else {
      assert (a + b)[1..] == a[1..] + b;
      ExecConcat(pol, Next(pol, w, a[0]), a[1..], b);
    }
  }

  lemma ExecSnoc(pol: Policies, w: World, labels: seq<Label>, l: Label)
    ensures Exec(pol, w, labels + [l]) == Next(pol, Exec(pol, w, labels), l)
  {
    ExecConcat(pol, w, labels, [l]);
    assert Exec(pol, Exec(pol, w, labels), [l]) == Exec(pol, Next(pol, Exec(pol, w, labels), l), []);
  }

  /**
   * A join in company that follows the protocol is a run of the protocol, the others' steps
   * and at most one join step; and a row it returns is the active membership that run leaves.
   */
  lemma {:induction false} JoinIsProtocolRun(
    pol: Policies, w: World, moves: Moves, company: Company, e: Exam, c: Candidate, at: int, round: nat
  )
    requires Rely(company) && ValidTable(w.table) && FreshIds(company, w.table)
    requires Follows(pol, w, moves, company, e, c, round)
    ensures var (t, r) := JoinSpec(company, w.table, e, c, at, round);
      && t == Exec(pol, w, JoinLabels(pol, w, moves, company, e, c, at, round)).table
      && (r.Ok? ==> T.FindActive(t, e, c) == Some(r.value))
    decreases 3 - round
  {
    if round < 3 {
      var before, between := moves(2 * round), moves(2 * round + 1);
      var w1 := Exec(pol, w, before);
      var w2 := Exec(pol, w1, between);
      OthersKeep(company, 2 * round, w.table);
      OthersKeep(company, 2 * round + 1, w1.table);
      RoundKeeps(company, w.table, e, c, at, round);
      if company.faults(round) == Unknown {
      } else if company.faults(round) == NoFault && !HasActive(w1.table, e, c) {
        ExecSnoc(pol, w, before, JoinQueue(e, c, at, company.ids(round)));
      } else if HasActive(w2.table, e, c) {
        ExecConcat(pol, w, before, between);
      } else {
        var rest := JoinLabels(pol, w2, moves, company, e, c, at, round + 1);
        ExecConcat(pol, w, before, between + rest);
        ExecConcat(pol, w1, between, rest);
        JoinIsProtocolRun(pol, w2, moves, company, e, c, at, round + 1);
      }
    }
  }
}
