/** The wait count of the candidate's view against its description. */
module AdmissionPreview {
  import opened Prelude
  import opened Text
  import opened AdmissionSchedule
  import opened T = AdmissionTable
  import opened AdmissionCommands
  import opened AdmissionProtocol
  import opened AdmissionRequests
  import opened AdmissionCapacity

  /** Candidates ahead who are not yet admitted, as the description of the wait count has it. */
  ghost function WaitingAhead(t: Table, e: Exam, joinedAt: int, id: Id): set<Id> {
    set i | i in ActiveAheadIds(t, e, joinedAt, id) && t[i].admittedAt.None?
  }

  ghost function AdmittedAhead(t: Table, e: Exam, joinedAt: int, id: Id): set<Id> {
    set i | i in ActiveAheadIds(t, e, joinedAt, id) && t[i].admittedAt.Some?
  }

  /** The wait count the code reports for a row, from the table. */
  ghost function WaitCount(t: Table, p: Policy, e: Exam, r: Row, now: int): nat {
    WaitCountOf(ActivePosition(t, e, r.joinedAt, r.id), T.EarliestJoinedAt(t, e), now, p)
  }

  /** It is what a preview with nobody else about reports. */
  lemma PreviewReportsWaitCount(v: QueueView, t: Table, p: Policy, e: Exam, r: Row, now: int)
    requires PreviewOf(v, r, T.EarliestJoinedAt(t, e), Ordinal(t, e, r.joinedAt, r.id),
                       ActivePosition(t, e, r.joinedAt, r.id), now, p)
    ensures v.waitCount == WaitCount(t, p, e, r, now)
  {
  }

  lemma AheadSplits(t: Table, e: Exam, joinedAt: int, id: Id)
    ensures |ActiveAheadIds(t, e, joinedAt, id)|
         == |WaitingAhead(t, e, joinedAt, id)| + |AdmittedAhead(t, e, joinedAt, id)|
  {
    var w, a := WaitingAhead(t, e, joinedAt, id), AdmittedAhead(t, e, joinedAt, id);
    assert ActiveAheadIds(t, e, joinedAt, id) == w + a && w !! a;
  }

  /**
   * Exactly when the wait count is the number of waiting candidates ahead: when one more than
   * the admitted ones ahead have been released, or when nobody waits ahead and at least that
   * many have.
   */
  lemma WaitCountIsWaitingAheadIff(t: Table, p: Policy, e: Exam, r: Row, now: int)
    ensures var waiting, admitted := |WaitingAhead(t, e, r.joinedAt, r.id)|, |AdmittedAhead(t, e, r.joinedAt, r.id)|;
      var released := Capacity(t, p, e, now);
      WaitCount(t, p, e, r, now) == waiting <==> admitted + 1 == released || (waiting == 0 && admitted + 1 <= released)
  {
    AheadSplits(t, e, r.joinedAt, r.id);
  }

  const NEXT: Id := [3]
  const ROW_NEXT := Row(NEXT, EXAM, "b", 0, None, None, None)

  lemma NextBehind()
    ensures BehindAll(map[FIRST := A_IN], EXAM, 0, NEXT) && !HasActive(map[FIRST := A_IN], EXAM, "b")
  {
    assert Less(FIRST, NEXT);
  }

  lemma OneAdmittedAhead(t: Table)
    requires t == map[FIRST := A_IN, NEXT := ROW_NEXT]
    ensures T.EarliestJoinedAt(t, EXAM) == Some(0)
    ensures ActiveAheadIds(t, EXAM, 0, NEXT) == {FIRST} && WaitingAhead(t, EXAM, 0, NEXT) == {}
  {
    assert IsMember(t, EXAM, FIRST);
    AnchorUnique(t, EXAM, 0);
    LessIrreflexive(NEXT);
    assert Less(FIRST, NEXT);
  }

  /**
   * A reachable queue on which the two differ: "a" has been admitted and has not started,
   * "b" comes next. Nobody waits ahead of "b", and it is told that one does.
   */
  lemma WaitCountCountsTheAdmitted()
    ensures var labels := AAdmitted() + [JoinQueue(EXAM, "b", 0, NEXT)];
      var t := Exec(SAME_POLICY, EMPTY_WORLD, labels).table;
      && T.FindActive(t, EXAM, "b") == Some(ROW_NEXT)
      && WaitCount(t, ONE_AT_A_TIME, EXAM, ROW_NEXT, 0) == 1 && WaitingAhead(t, EXAM, 0, NEXT) == {}
      && BehindAll(Exec(SAME_POLICY, EMPTY_WORLD, AAdmitted()).table, EXAM, 0, NEXT)
  {
    AfterAAdmitted();
    NextBehind();
    AfterNextJoins();
    var t := map[FIRST := A_IN, NEXT := ROW_NEXT];
    FindActiveUnique(t, EXAM, "b", NEXT);
    OneAdmittedAhead(t);
  }

  lemma AfterNextJoins()
    ensures Exec(SAME_POLICY, EMPTY_WORLD, AAdmitted() + [JoinQueue(EXAM, "b", 0, NEXT)]).table
         == map[FIRST := A_IN, NEXT := ROW_NEXT]
    ensures ValidTable(map[FIRST := A_IN, NEXT := ROW_NEXT])
  {
    AfterAAdmitted();
    NextBehind();
    ExecSnoc(SAME_POLICY, EMPTY_WORLD, AAdmitted(), JoinQueue(EXAM, "b", 0, NEXT));
    assert map[FIRST := A_IN][NEXT := ROW_NEXT] == map[FIRST := A_IN, NEXT := ROW_NEXT];
  }
}
