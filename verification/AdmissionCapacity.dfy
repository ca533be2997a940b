/**
 * How far the capacity bound reaches. Joins that do not arrive behind the others move
 * ordinals under requests in flight; this module characterises, for an arbitrary world of
 * the protocol, when no continuation with joins in order can break the bound, and exhibits
 * runs from the empty queue that do break it.
 */
module AdmissionCapacity {
  import opened Prelude
  import opened Text
  import opened AdmissionSchedule
  import opened T = AdmissionTable
  import opened AdmissionProtocol
  import opened AdmissionOrder
  import opened AdmissionRequests

  // ----- what a world can still admit

  ghost function Capacity(t: Table, p: Policy, e: Exam, at: int): nat {
    ComputeBatchRelease(T.EarliestJoinedAt(t, e), at, p).releasedCount
  }

  /**
   * A request that will admit `id` at an instant up to `at`, whatever the table says by then:
   * it has read an anchor and an ordinal that make it due, or an anchor that does together
   * with the ordinal it will read.
   */
  ghost predicate Claims(p: Policy, t: Table, q: Proc, e: Exam, id: Id, at: int) {
    match q
    case GotAnchor(e', _, now, r, anchor) =>
      e' == e && r.id == id && now <= at && Eligible(anchor, Ordinal(t, e, r.joinedAt, id), now, p)
    case GotOrdinal(e', _, now, r, anchor, ordinal) =>
      e' == e && r.id == id && now <= at && Eligible(anchor, ordinal, now, p)
    case _ => false
  }

  ghost predicate Claimed(w: World, p: Policy, e: Exam, id: Id, at: int) {
    exists pid :: pid in w.procs && Claims(p, w.table, w.procs[pid], e, id, at)
  }

  /** Waiting memberships that are due at `at`, or that a request in flight will admit by then. */
  ghost function Outstanding(w: World, p: Policy, e: Exam, at: int): set<Id> {
    set id | id in w.table && w.table[id].exam == e && w.table[id].admittedAt.None?
      && (EligibleIn(w.table, p, id, at) || Claimed(w, p, e, id, at))
  }

  /** Memberships admitted by `at` together with the outstanding ones. */
  ghost function Demand(w: World, p: Policy, e: Exam, at: int): set<Id> {
    AdmittedBy(w.table, e, at) + Outstanding(w, p, e, at)
  }

  ghost predicate WorldFits(pol: Policies, w: World, e: Exam) {
    forall at :: |Demand(w, pol(e), e, at)| <= Capacity(w.table, pol(e), e, at)
  }

  ghost predicate JoinFree(labels: seq<Label>) {
    forall i :: 0 <= i < |labels| ==> !labels[i].JoinQueue?
  }

  ghost predicate CapacityHolds(t: Table, p: Policy, e: Exam) {
    forall at :: |AdmittedBy(t, e, at)| <= Capacity(t, p, e, at)
  }

  /** No continuation of requests, starts and joins in order exceeds the release at any instant. */
  ghost predicate CapacityHoldsForever(pol: Policies, w: World, e: Exam) {
    forall labels :: JoinsBehindRun(pol, w, labels) ==> CapacityHolds(Exec(pol, w, labels).table, pol(e), e)
  }

  lemma {:induction false} JoinFreeIsInOrder(pol: Policies, w: World, labels: seq<Label>)
    requires JoinFree(labels)
    ensures JoinsBehindRun(pol, w, labels)
    decreases |labels|
  {
    if labels != [] {
      JoinFreeIsInOrder(pol, Next(pol, w, labels[0]), labels[1..]);
    }
  }

  // ----- steps never raise the demand

  lemma ScheduleKept(t: Table, t': Table, p: Policy, e: Exam, at: int)
    requires SameKeys(t, t')
    ensures Capacity(t', p, e, at) == Capacity(t, p, e, at)
    ensures forall id :: IsMember(t, e, id) ==> id in t' && EligibleIn(t', p, id, at) == EligibleIn(t, p, id, at)
    ensures forall joinedAt, id :: Ordinal(t', e, joinedAt, id) == Ordinal(t, e, joinedAt, id)
  {
    ScheduleDependsOnKeys(t, t', e);
  }

  lemma EligibleStays(t: Table, p: Policy, id: Id, now: int, at: int)
    requires id in t && EligibleIn(t, p, id, now) && now <= at
    ensures EligibleIn(t, p, id, at)
  {
    ReleaseMonotone(T.EarliestJoinedAt(t, t[id].exam), now, at, p);
  }

  /** The claim of a request about to read its anchor is that its membership is due. */
  lemma AnchorReadClaimsDue(p: Policy, t: Table, q: Proc, e: Exam, id: Id, at: int)
    requires q.GotRow? && RowGrounded(t, q)
    requires Claims(p, t, GotAnchor(q.exam, q.candidate, q.now, q.active, T.EarliestJoinedAt(t, q.exam)), e, id, at)
    ensures id in t && t[id].exam == e && EligibleIn(t, p, id, at)
  {
    EligibleStays(t, p, id, q.now, at);
  }

  /** Which step makes a claim, if the process did not claim before. */
  lemma NewClaimIsRead(pol: Policies, w: World, l: Label, pid: Pid, e: Exam, id: Id, at: int)
    requires !l.JoinQueue? && pid in Next(pol, w, l).procs
    requires pid !in w.procs || Next(pol, w, l).procs[pid] != w.procs[pid]
    requires Claims(pol(e), w.table, Next(pol, w, l).procs[pid], e, id, at)
    ensures pid in w.procs && Next(pol, w, l).table == w.table
    ensures (l == ReadAnchor(pid) && w.procs[pid].GotRow?) || (l == ReadOrdinal(pid) && w.procs[pid].GotAnchor?)
  {
  }

  lemma ClaimsSameKeys(p: Policy, t: Table, t': Table, q: Proc, e: Exam, id: Id, at: int)
    requires SameKeys(t, t')
    ensures Claims(p, t', q, e, id, at) == Claims(p, t, q, e, id, at)
  {
    ScheduleDependsOnKeys(t, t', e);
  }

  /** A claim after a step was a claim before it, or the membership was due anyway. */
  lemma ClaimComesFrom(pol: Policies, w: World, l: Label, pid: Pid, e: Exam, id: Id, at: int)
    requires Grounded(w) && !l.JoinQueue? && id in w.table && w.table[id].exam == e
    requires var w' := Next(pol, w, l); pid in w'.procs && Claims(pol(e), w'.table, w'.procs[pid], e, id, at)
    ensures Claimed(w, pol(e), e, id, at) || EligibleIn(w.table, pol(e), id, at)
  {
    var w' := Next(pol, w, l);
    StepEvolves(pol, w, l);
    ClaimsSameKeys(pol(e), w.table, w'.table, w'.procs[pid], e, id, at);
    if pid !in w.procs || w'.procs[pid] != w.procs[pid] {
      NewClaimIsRead(pol, w, l, pid, e, id, at);
      assert RowGrounded(w.table, w.procs[pid]);
      if l.ReadAnchor? {
        AnchorReadClaimsDue(pol(e), w.table, w.procs[pid], e, id, at);
      } else {
        assert Claims(pol(e), w.table, w.procs[pid], e, id, at);
      }
    }
  }

  /** What a step newly admits was claimed. */
  lemma AdmissionWasClaimed(pol: Policies, w: World, l: Label, e: Exam, id: Id, at: int)
    requires Grounded(w) && !l.JoinQueue? && id in w.table && w.table[id].exam == e && w.table[id].admittedAt.None?
    requires id in AdmittedBy(Next(pol, w, l).table, e, at)
    ensures Claimed(w, pol(e), e, id, at)
  {
    assert l.DecideAndAdmit? && ProcOf(w, l.pid).GotOrdinal?;
    assert RowGrounded(w.table, w.procs[l.pid]);
    assert Claims(pol(e), w.table, w.procs[l.pid], e, id, at);
  }

  lemma StepShrinksDemand(pol: Policies, w: World, l: Label, e: Exam, at: int)
    requires Grounded(w) && !l.JoinQueue?
    ensures Demand(Next(pol, w, l), pol(e), e, at) <= Demand(w, pol(e), e, at)
    ensures Capacity(Next(pol, w, l).table, pol(e), e, at) == Capacity(w.table, pol(e), e, at)
  {
    var w' := Next(pol, w, l);
    StepEvolves(pol, w, l);
    ScheduleKept(w.table, w'.table, pol(e), e, at);
    forall id | id in Demand(w', pol(e), e, at)
      ensures id in Demand(w, pol(e), e, at)
    {
      DemandComesFrom(pol, w, l, e, id, at);
    }
  }

  lemma DemandComesFrom(pol: Policies, w: World, l: Label, e: Exam, id: Id, at: int)
    requires Grounded(w) && !l.JoinQueue? && id in Demand(Next(pol, w, l), pol(e), e, at)
    ensures id in Demand(w, pol(e), e, at)
  {
    var w' := Next(pol, w, l);
    StepEvolves(pol, w, l);
    ScheduleKept(w.table, w'.table, pol(e), e, at);
    assert id in w.table && w.table[id].exam == e;
    if w.table[id].admittedAt.None? {
      if id in AdmittedBy(w'.table, e, at) {
        AdmissionWasClaimed(pol, w, l, e, id, at);
      } else if Claimed(w', pol(e), e, id, at) {
        var pid :| pid in w'.procs && Claims(pol(e), w'.table, w'.procs[pid], e, id, at);
        ClaimComesFrom(pol, w, l, pid, e, id, at);
      }
    }
  }

  // ----- nor do joins in order

  ghost function Members(t: Table, e: Exam): set<Id> {
    set id | id in t && t[id].exam == e
  }

  /** A join that takes effect, behind all of its exam. */
  ghost predicate Effective(w: World, l: Label) {
    && l.JoinQueue? && l.id !in w.table && !HasActive(w.table, l.exam, l.candidate)
    && BehindAll(w.table, l.exam, l.at, l.id)
  }

  /** A claim of a request in flight is not for a membership that joins, and a join behind all does not touch it. */
  lemma JoinKeepsClaims(pol: Policies, w: World, l: Label, e: Exam, id: Id, at: int)
    requires Grounded(w) && Effective(w, l) && Claimed(Next(pol, w, l), pol(e), e, id, at)
    ensures id in w.table && Claimed(w, pol(e), e, id, at)
  {
    var w' := Next(pol, w, l);
    var pid :| pid in w'.procs && Claims(pol(e), w'.table, w'.procs[pid], e, id, at);
    assert RowGrounded(w.table, w.procs[pid]);
    assert IsMember(w.table, e, id);
    JoinBehindKeepsSchedule(w.table, l.exam, l.candidate, l.at, l.id);
    assert Claims(pol(e), w.table, w.procs[pid], e, id, at);
  }

  /** Apart from the newcomer, the demand after a join behind all is the demand before. */
  lemma JoinDemandComesFrom(pol: Policies, w: World, l: Label, e: Exam, id: Id, at: int)
    requires Grounded(w) && Effective(w, l) && id in Demand(Next(pol, w, l), pol(e), e, at) && id != l.id
    ensures id in Demand(w, pol(e), e, at)
  {
    var w' := Next(pol, w, l);
    JoinBehindKeepsSchedule(w.table, l.exam, l.candidate, l.at, l.id);
    assert IsMember(w.table, e, id) && w'.table[id] == w.table[id];
    if Claimed(w', pol(e), e, id, at) {
      JoinKeepsClaims(pol, w, l, e, id, at);
    }
  }

  /** A newcomer in the demand is due; nobody claims it yet. */
  lemma NewcomerIsDue(pol: Policies, w: World, l: Label, e: Exam, at: int)
    requires Grounded(w) && Effective(w, l) && l.id in Demand(Next(pol, w, l), pol(e), e, at)
    ensures var t' := Next(pol, w, l).table;
      e == l.exam && l.id in t' && t'[l.id].exam == e && t'[l.id].joinedAt == l.at && EligibleIn(t', pol(e), l.id, at)
  {
    if Claimed(Next(pol, w, l), pol(e), e, l.id, at) {
      JoinKeepsClaims(pol, w, l, e, l.id, at);
    }
  }

  /** A newcomer behind all has everyone else of its exam ahead. */
  lemma LastHasAllAhead(pol: Policies, w: World, l: Label)
    requires Effective(w, l)
    ensures var t' := Next(pol, w, l).table; |Members(t', l.exam)| == Ordinal(t', l.exam, l.at, l.id)
  {
    var t' := Next(pol, w, l).table;
    assert t' == w.table[l.id := Row(l.id, l.exam, l.candidate, l.at, None, None, None)];
    LessIrreflexive(l.id);
    forall i
      ensures i in AheadIds(t', l.exam, l.at, l.id) <==> i in Members(w.table, l.exam)
      ensures i in Members(t', l.exam) <==> i in Members(w.table, l.exam) || i == l.id
    {
      assert i in w.table && w.table[i].exam == l.exam ==> IsMember(w.table, l.exam, i);
    }
    assert AheadIds(t', l.exam, l.at, l.id) == Members(w.table, l.exam);
    assert Members(t', l.exam) == Members(w.table, l.exam) + {l.id};
  }

  /** If the newcomer is due, everybody of its exam fits; if it is not, nothing is added. */
  lemma JoinKeepsFit(pol: Policies, w: World, l: Label, e: Exam, at: int)
    requires Grounded(w) && Effective(w, l) && |Demand(w, pol(e), e, at)| <= Capacity(w.table, pol(e), e, at)
    ensures |Demand(Next(pol, w, l), pol(e), e, at)| <= Capacity(Next(pol, w, l).table, pol(e), e, at)
  {
    var w' := Next(pol, w, l);
    var demand := Demand(w', pol(e), e, at);
    if l.id in demand {
      NewcomerIsDue(pol, w, l, e, at);
      EligibleIffWithinCount(T.EarliestJoinedAt(w'.table, e), Ordinal(w'.table, e, l.at, l.id), at, pol(e));
      LastHasAllAhead(pol, w, l);
      SubsetSize(demand, Members(w'.table, e));
    } else {
      forall id | id in demand
        ensures id in Demand(w, pol(e), e, at)
      {
        JoinDemandComesFrom(pol, w, l, e, id, at);
      }
      SubsetSize(demand, Demand(w, pol(e), e, at));
      if demand != {} {
        var id :| id in demand;
        assert id in Demand(w, pol(e), e, at);
        assert IsMember(w.table, e, id);
        JoinBehindKeepsSchedule(w.table, l.exam, l.candidate, l.at, l.id);
      }
    }
  }

  lemma StepKeepsFit(pol: Policies, w: World, l: Label, e: Exam)
    requires Grounded(w) && WorldFits(pol, w, e) && JoinsBehind(w, l)
    ensures WorldFits(pol, Next(pol, w, l), e)
  {
    var w' := Next(pol, w, l);
    forall at
      ensures |Demand(w', pol(e), e, at)| <= Capacity(w'.table, pol(e), e, at)
    {
      assert |Demand(w, pol(e), e, at)| <= Capacity(w.table, pol(e), e, at);
      if !l.JoinQueue? {
        StepShrinksDemand(pol, w, l, e, at);
        SubsetSize(Demand(w', pol(e), e, at), Demand(w, pol(e), e, at));
      } else if l.id in w.table || HasActive(w.table, l.exam, l.candidate) {
        assert w' == w;
      } else {
        JoinKeepsFit(pol, w, l, e, at);
      }
    }
  }

  lemma {:induction false} FittingWorldHoldsForever(pol: Policies, w: World, e: Exam, labels: seq<Label>)
    requires Grounded(w) && WorldFits(pol, w, e) && JoinsBehindRun(pol, w, labels)
    ensures CapacityHolds(Exec(pol, w, labels).table, pol(e), e)
    decreases |labels|
  {
    if labels == [] {
      forall at
        ensures |AdmittedBy(w.table, e, at)| <= Capacity(w.table, pol(e), e, at)
      {
        SubsetSize(AdmittedBy(w.table, e, at), Demand(w, pol(e), e, at));
        assert |Demand(w, pol(e), e, at)| <= Capacity(w.table, pol(e), e, at);
      }
    } else {
      StepKeepsGrounded(pol, w, labels[0]);
      StepKeepsFit(pol, w, labels[0], e);
      FittingWorldHoldsForever(pol, Next(pol, w, labels[0]), e, labels[1..]);
    }
  }

  // ----- the whole demand can be realised

  /** One admission by `at` through one request moves one membership from outstanding to admitted, and nothing else. */
  ghost predicate AdmitsOnly(w: World, w': World, pid: Pid, id: Id, when: int) {
    && w'.table == T.AdmitOnce(w.table, id, when)
    && pid in w'.procs && w'.procs[pid].Returned?
    && (forall i :: i != pid ==> (i in w'.procs <==> i in w.procs))
    && (forall i :: i != pid && i in w.procs ==> w'.procs[i] == w.procs[i])
    && (pid in w.procs ==> w.procs[pid].Idle? || w.procs[pid].GotAnchor? || w.procs[pid].GotOrdinal?)
    && (pid in w.procs && !w.procs[pid].Idle? ==> w.procs[pid].active.id == id)
  }

  lemma ClaimsKept(w: World, w': World, p: Policy, e: Exam, at: int, pid: Pid, id: Id, when: int, other: Id)
    requires Grounded(w) && AdmitsOnly(w, w', pid, id, when) && other != id
    ensures Claimed(w', p, e, other, at) <==> Claimed(w, p, e, other, at)
  {
    AdmitOnceKeeps(w.table, id, when);
    ScheduleKept(w.table, w'.table, p, e, at);
    if Claimed(w, p, e, other, at) {
      var i :| i in w.procs && Claims(p, w.table, w.procs[i], e, other, at);
      assert i in w'.procs && Claims(p, w'.table, w'.procs[i], e, other, at);
    }
    if Claimed(w', p, e, other, at) {
      var i :| i in w'.procs && Claims(p, w'.table, w'.procs[i], e, other, at);
      assert i in w.procs && Claims(p, w.table, w.procs[i], e, other, at);
    }
  }

  lemma OutstandingKept(w: World, w': World, p: Policy, e: Exam, at: int, pid: Pid, id: Id, when: int, other: Id)
    requires Grounded(w) && AdmitsOnly(w, w', pid, id, when) && id in w.table && w.table[id].admittedAt.None?
    ensures other in Outstanding(w', p, e, at) <==> other in Outstanding(w, p, e, at) && other != id
  {
    if other != id {
      AdmitOnceKeeps(w.table, id, when);
      ScheduleKept(w.table, w'.table, p, e, at);
      ClaimsKept(w, w', p, e, at, pid, id, when, other);
    }
  }

  lemma AdmittedAfterAdmit(t: Table, e: Exam, at: int, id: Id, when: int)
    requires id in t && t[id].exam == e && t[id].admittedAt.None? && when <= at
    ensures AdmittedBy(T.AdmitOnce(t, id, when), e, at) == AdmittedBy(t, e, at) + {id}
  {
  }

  lemma OutstandingAfterAdmit(w: World, w': World, p: Policy, e: Exam, at: int, pid: Pid, id: Id, when: int)
    requires Grounded(w) && AdmitsOnly(w, w', pid, id, when) && id in w.table && w.table[id].admittedAt.None?
    ensures Outstanding(w', p, e, at) == Outstanding(w, p, e, at) - {id}
  {
    var before, after := Outstanding(w, p, e, at), Outstanding(w', p, e, at);
    forall other
      ensures other in after <==> other in before && other != id
    {
      OutstandingKept(w, w', p, e, at, pid, id, when, other);
    }
  }

  lemma AdmissionMovesOne(w: World, w': World, p: Policy, e: Exam, at: int, pid: Pid, id: Id, when: int)
    requires Grounded(w) && AdmitsOnly(w, w', pid, id, when) && when <= at && id in Outstanding(w, p, e, at)
    ensures AdmittedBy(w'.table, e, at) == AdmittedBy(w.table, e, at) + {id}
    ensures Outstanding(w', p, e, at) == Outstanding(w, p, e, at) - {id}
    ensures Capacity(w'.table, p, e, at) == Capacity(w.table, p, e, at)
  {
    AdmittedAfterAdmit(w.table, e, at, id, when);
    OutstandingAfterAdmit(w, w', p, e, at, pid, id, when);
    AdmitOnceKeeps(w.table, id, when);
    ScheduleDependsOnKeys(w.table, w'.table, e);
  }

  lemma FreshPid(procs: map<Pid, Proc>) returns (pid: Pid)
    ensures pid !in procs
  {
    pid := FreshAbove(procs.Keys);
  }

  lemma {:induction false} FreshAbove(used: set<nat>) returns (n: nat)
    ensures forall i :: i in used ==> i < n
    decreases used
  {
    if used == {} {
      n := 0;
    } else {
      var i :| i in used;
      var m := FreshAbove(used - {i});
      assert used == (used - {i}) + {i};
      n := if m <= i then i + 1 else m;
    }
  }

  /** A new request of a due candidate admits it. */
  lemma AdmitDue(pol: Policies, w: World, e: Exam, at: int, id: Id) returns (labels: seq<Label>, pid: Pid)
    requires Grounded(w) && id in w.table && w.table[id].exam == e && w.table[id].admittedAt.None?
    requires EligibleIn(w.table, pol(e), id, at)
    ensures JoinFree(labels) && AdmitsOnly(w, Exec(pol, w, labels), pid, id, at)
  {
    pid := FreshPid(w.procs);
    var c := w.table[id].candidate;
    labels := RequestSteps(pid, e, c, at);
    FindActiveUnique(w.table, e, c, id);
    WaitingRequest(pol, w, pid, e, c, at);
  }

  /** A claim in flight, carried on, admits its membership at its own instant. */
  lemma AdmitClaimed(pol: Policies, w: World, e: Exam, at: int, id: Id)
    returns (labels: seq<Label>, pid: Pid, when: int)
    requires Grounded(w) && id in w.table && w.table[id].exam == e && w.table[id].admittedAt.None?
    requires Claimed(w, pol(e), e, id, at)
    ensures JoinFree(labels) && when <= at && AdmitsOnly(w, Exec(pol, w, labels), pid, id, when)
  {
    pid :| pid in w.procs && Claims(pol(e), w.table, w.procs[pid], e, id, at);
    assert RowGrounded(w.table, w.procs[pid]);
    when := w.procs[pid].now;
    if w.procs[pid].GotOrdinal? {
      labels := [DecideAndAdmit(pid)];
      assert Exec(pol, w, labels) == Exec(pol, Next(pol, w, labels[0]), []);
    } else {
      labels := [ReadOrdinal(pid), DecideAndAdmit(pid)];
      var w1 := Next(pol, w, labels[0]);
      assert labels[1..] == [DecideAndAdmit(pid)];
      assert Exec(pol, w1, [DecideAndAdmit(pid)]) == Exec(pol, Next(pol, w1, DecideAndAdmit(pid)), []);
    }
  }

  lemma AdmitOutstanding(pol: Policies, w: World, e: Exam, at: int, id: Id) returns (labels: seq<Label>)
    requires Grounded(w) && id in Outstanding(w, pol(e), e, at)
    ensures JoinFree(labels)
    ensures var w' := Exec(pol, w, labels);
      && Grounded(w')
      && AdmittedBy(w'.table, e, at) == AdmittedBy(w.table, e, at) + {id}
      && Outstanding(w', pol(e), e, at) == Outstanding(w, pol(e), e, at) - {id}
      && Capacity(w'.table, pol(e), e, at) == Capacity(w.table, pol(e), e, at)
  {
    var pid, when;
    if Claimed(w, pol(e), e, id, at) {
      labels, pid, when := AdmitClaimed(pol, w, e, at, id);
    } else {
      labels, pid := AdmitDue(pol, w, e, at, id);
      when := at;
    }
    AdmissionMovesOne(w, Exec(pol, w, labels), pol(e), e, at, pid, id, when);
    RunKeepsGrounded(pol, w, labels);
  }

  /** For any instant some continuation admits the whole demand of that instant. */
  lemma {:induction false} DemandCanBeRealised(pol: Policies, w: World, e: Exam, at: int) returns (labels: seq<Label>)
    requires Grounded(w)
    ensures JoinFree(labels)
    ensures AdmittedBy(Exec(pol, w, labels).table, e, at) == Demand(w, pol(e), e, at)
    ensures Capacity(Exec(pol, w, labels).table, pol(e), e, at) == Capacity(w.table, pol(e), e, at)
    decreases Outstanding(w, pol(e), e, at)
  {
    if Outstanding(w, pol(e), e, at) == {} {
      labels := [];
    } else {
      var id :| id in Outstanding(w, pol(e), e, at);
      var first := AdmitOutstanding(pol, w, e, at, id);
      var w' := Exec(pol, w, first);
      var rest := DemandCanBeRealised(pol, w', e, at);
      labels := first + rest;
      ExecConcat(pol, w, first, rest);
      assert Demand(w', pol(e), e, at) == Demand(w, pol(e), e, at);
    }
  }

  // ----- exactly when the bound is safe

  /**
   * Exactly when the bound is safe, for every world any run reaches: no continuation of
   * interleaved requests, starts and joins in order admits more than is released, at any
   * instant, if and only if at every instant the memberships admitted, due, or claimed by a
   * request in flight are no more than the release.
   */
  lemma CapacityForeverIffDemandFits(pol: Policies, w: World, e: Exam)
    requires Grounded(w)
    ensures CapacityHoldsForever(pol, w, e) <==> WorldFits(pol, w, e)
  {
    if WorldFits(pol, w, e) {
      forall labels | JoinsBehindRun(pol, w, labels)
        ensures CapacityHolds(Exec(pol, w, labels).table, pol(e), e)
      {
        FittingWorldHoldsForever(pol, w, e, labels);
      }
    }
    if CapacityHoldsForever(pol, w, e) {
      forall at
        ensures |Demand(w, pol(e), e, at)| <= Capacity(w.table, pol(e), e, at)
      {
        var labels := DemandCanBeRealised(pol, w, e, at);
        JoinFreeIsInOrder(pol, w, labels);
        var later := Exec(pol, w, labels).table;
        assert CapacityHolds(later, pol(e), e);
        assert |AdmittedBy(later, e, at)| <= Capacity(later, pol(e), e, at);
      }
    }
  }

  /** Waiting memberships whose batch is released at `at`. */
  ghost function DueBy(t: Table, p: Policy, e: Exam, at: int): set<Id> {
    set id | id in t && t[id].exam == e && t[id].admittedAt.None? && EligibleIn(t, p, id, at)
  }

  ghost predicate TableFits(t: Table, p: Policy, e: Exam) {
    forall at :: |AdmittedBy(t, e, at) + DueBy(t, p, e, at)| <= Capacity(t, p, e, at)
  }

  /** No request holds an anchor or an ordinal it has read. */
  ghost predicate NothingInFlight(w: World) {
    forall pid :: pid in w.procs ==> !w.procs[pid].GotAnchor? && !w.procs[pid].GotOrdinal?
  }

  /** With no request in flight the table alone decides. */
  lemma CapacityForeverIffTableFits(pol: Policies, w: World, e: Exam)
    requires Grounded(w) && NothingInFlight(w)
    ensures CapacityHoldsForever(pol, w, e) <==> TableFits(w.table, pol(e), e)
  {
    CapacityForeverIffDemandFits(pol, w, e);
    forall at
      ensures Demand(w, pol(e), e, at) == AdmittedBy(w.table, e, at) + DueBy(w.table, pol(e), e, at)
    {
      OutstandingIsDue(w, pol(e), e, at);
    }
  }

  lemma OutstandingIsDue(w: World, p: Policy, e: Exam, at: int)
    requires NothingInFlight(w)
    ensures Outstanding(w, p, e, at) == DueBy(w.table, p, e, at)
  {
    forall id
      ensures !Claimed(w, p, e, id, at)
    {
    }
  }

  lemma OrdinalFits(t: Table, p: Policy, e: Exam, id: Id, when: int, at: int)
    requires IsMember(t, e, id) && EligibleIn(t, p, id, when) && when <= at
    ensures Ordinal(t, e, t[id].joinedAt, id) <= Capacity(t, p, e, at)
  {
    EligibleIffWithinCount(T.EarliestJoinedAt(t, e), Ordinal(t, e, t[id].joinedAt, id), when, p);
    ReleaseMonotone(T.EarliestJoinedAt(t, e), when, at, p);
  }

  /** What a request with fresh reads claims is due. */
  lemma FreshClaimIsDue(pol: Policies, w: World, e: Exam, id: Id, at: int)
    requires Inv(pol, w) && id in w.table && w.table[id].exam == e && Claimed(w, pol(e), e, id, at)
    ensures EligibleIn(w.table, pol(e), id, at)
  {
    var pid :| pid in w.procs && Claims(pol(e), w.table, w.procs[pid], e, id, at);
    assert FreshReads(w.table, w.procs[pid]);
    EligibleStays(w.table, pol(e), id, w.procs[pid].now, at);
  }

  /**
   * Worlds with all admissions on schedule and all reads fresh, so every world joins behind each
   * other reach, are safe forever.
   */
  lemma OnScheduleFits(pol: Policies, w: World, e: Exam)
    requires Inv(pol, w)
    ensures Grounded(w) && WorldFits(pol, w, e) && CapacityHoldsForever(pol, w, e)
  {
    var t, p := w.table, pol(e);
    forall at
      ensures |Demand(w, p, e, at)| <= Capacity(t, p, e, at)
    {
      forall id | id in Demand(w, p, e, at)
        ensures id in t && t[id].exam == e && Ordinal(t, e, t[id].joinedAt, id) <= Capacity(t, p, e, at)
      {
        if t[id].admittedAt.Some? {
          OrdinalFits(t, p, e, id, t[id].admittedAt.value, at);
        } else {
          if Claimed(w, p, e, id, at) {
            FreshClaimIsDue(pol, w, e, id, at);
          }
          OrdinalFits(t, p, e, id, at, at);
        }
      }
      BoundedOrdinalsBoundCount(t, e, Demand(w, p, e, at), Capacity(t, p, e, at));
    }
    CapacityForeverIffDemandFits(pol, w, e);
  }

  // ----- runs that break the bound

  const EXAM := Exam("org", "exam")
  const ONE_AT_A_TIME: Policy := PolicyData(1, 30)
  const FIRST: Id := [2]
  const LATE: Id := [1]
  const ROW_A := Row(FIRST, EXAM, "a", 0, None, None, None)
  const ROW_B := Row(LATE, EXAM, "b", 0, None, None, None)
  const A_READY := GotOrdinal(EXAM, "a", 0, ROW_A, Some(0), 1)
  const B_READY := GotOrdinal(EXAM, "b", 0, ROW_B, Some(0), 1)

  ghost const SAME_POLICY: Policies := (e: Exam) => ONE_AT_A_TIME

  /** Candidate "a" joins at 0 and its request 7 has read everything. */
  function AReads(): seq<Label> {
    [JoinQueue(EXAM, "a", 0, FIRST), ReadActive(7, EXAM, "a", 0), ReadAnchor(7), ReadOrdinal(7)]
  }

  /** In the same millisecond candidate "b" joins under a smaller id, and its request 8 reads everything. */
  function BReads(): seq<Label> {
    [JoinQueue(EXAM, "b", 0, LATE), ReadActive(8, EXAM, "b", 0), ReadAnchor(8), ReadOrdinal(8)]
  }

  lemma AloneAtFront(t: Table, r: Row)
    requires ValidTable(t) && r.id in t && t[r.id] == r && r.exam == EXAM && r.joinedAt == 0 && r.consumedAt.None?
    requires forall id :: id in t ==> t[id].joinedAt == 0
    requires forall id :: id in t && id != r.id ==> Less(r.id, id)
    ensures T.FindActive(t, EXAM, r.candidate) == Some(r)
    ensures T.EarliestJoinedAt(t, EXAM) == Some(0) && Ordinal(t, EXAM, 0, r.id) == 1
  {
    FindActiveUnique(t, EXAM, r.candidate, r.id);
    assert IsMember(t, EXAM, r.id);
    AnchorUnique(t, EXAM, 0);
    LessIrreflexive(r.id);
    forall id | id in t
      ensures !Ahead(t[id].joinedAt, id, 0, r.id)
    {
      if id != r.id {
        LessAsymmetric(r.id, id);
      }
    }
    assert AheadIds(t, EXAM, 0, r.id) == {};
  }

  /** The reads of a request at the front, as steps of the protocol. */
  lemma FrontReads(w: World, pid: Pid, r: Row)
    requires ProcOf(w, pid).Idle? && r.admittedAt.None? && r.exam == EXAM && r.joinedAt == 0
    requires T.FindActive(w.table, EXAM, r.candidate) == Some(r)
    requires T.EarliestJoinedAt(w.table, EXAM) == Some(0) && Ordinal(w.table, EXAM, 0, r.id) == 1
    ensures Next(SAME_POLICY,
              Next(SAME_POLICY, Next(SAME_POLICY, w, ReadActive(pid, EXAM, r.candidate, 0)), ReadAnchor(pid)),
              ReadOrdinal(pid))
         == SetProc(w, pid, GotOrdinal(EXAM, r.candidate, 0, r, Some(0), 1))
  {
    var w1 := Next(SAME_POLICY, w, ReadActive(pid, EXAM, r.candidate, 0));
    assert w1 == SetProc(w, pid, GotRow(EXAM, r.candidate, 0, r));
    var w2 := Next(SAME_POLICY, w1, ReadAnchor(pid));
    assert w2 == SetProc(w, pid, GotAnchor(EXAM, r.candidate, 0, r, Some(0)));
  }

  lemma AfterAReads()
    ensures Exec(SAME_POLICY, EMPTY_WORLD, AReads()) == World(map[FIRST := ROW_A], map[7 := A_READY], [])
    ensures ValidTable(map[FIRST := ROW_A])
  {
    var w1 := Next(SAME_POLICY, EMPTY_WORLD, JoinQueue(EXAM, "a", 0, FIRST));
    JoinValid(map[], EXAM, "a", 0, FIRST);
    assert w1.table == map[FIRST := ROW_A];
    AloneAtFront(w1.table, ROW_A);
    FrontReads(w1, 7, ROW_A);
    ExecFour(SAME_POLICY, EMPTY_WORLD, JoinQueue(EXAM, "a", 0, FIRST),
             ReadActive(7, EXAM, "a", 0), ReadAnchor(7), ReadOrdinal(7));
  }

  lemma AfterBReads(a: Row, q: Proc)
    requires a == ROW_A || a == A_IN
    ensures var t := map[FIRST := a];
      && ValidTable(t)
      && Exec(SAME_POLICY, World(t, map[7 := q], []), BReads())
         == World(t[LATE := ROW_B], map[7 := q, 8 := B_READY], [])
      && ValidTable(t[LATE := ROW_B]) && T.EarliestJoinedAt(t[LATE := ROW_B], EXAM) == Some(0)
  {
    var t := map[FIRST := a];
    var w := World(t, map[7 := q], []);
    assert ValidTable(t);
    assert !HasActive(t, EXAM, "b");
    JoinValid(t, EXAM, "b", 0, LATE);
    var w1 := Next(SAME_POLICY, w, JoinQueue(EXAM, "b", 0, LATE));
    assert w1.table == t[LATE := ROW_B];
    AloneAtFront(w1.table, ROW_B);
    FrontReads(w1, 8, ROW_B);
    ExecFour(SAME_POLICY, w, JoinQueue(EXAM, "b", 0, LATE), ReadActive(8, EXAM, "b", 0), ReadAnchor(8), ReadOrdinal(8));
  }

  /** A request that has read ordinal 1 of an unadmitted row admits it at 0. */
  lemma FrontDecides(w: World, pid: Pid, r: Row)
    requires ProcOf(w, pid) == GotOrdinal(EXAM, r.candidate, 0, r, Some(0), 1)
    requires r.id in w.table && w.table[r.id] == r && r.admittedAt.None?
    ensures Next(SAME_POLICY, w, DecideAndAdmit(pid)).table == w.table[r.id := r.(admittedAt := Some(0))]
    ensures Next(SAME_POLICY, w, DecideAndAdmit(pid)).procs
         == w.procs[pid := Returned(EXAM, r.candidate, 0, Some(r.(admittedAt := Some(0))))]
    ensures Next(SAME_POLICY, w, DecideAndAdmit(pid)).starts == w.starts
  {
  }

  ghost predicate Exceeded(t: Table) {
    |AdmittedBy(t, EXAM, 0)| == 2 && Capacity(t, ONE_AT_A_TIME, EXAM, 0) == 1
  }

  lemma BothAdmittedExceeds(t: Table)
    requires t == map[FIRST := A_IN, LATE := ROW_B.(admittedAt := Some(0))]
    ensures Exceeded(t)
  {
    assert IsMember(t, EXAM, FIRST);
    AnchorUnique(t, EXAM, 0);
    assert AdmittedBy(t, EXAM, 0) == {FIRST, LATE};
  }

  const A_IN := ROW_A.(admittedAt := Some(0))
  const A_DONE := Returned(EXAM, "a", 0, Some(A_IN))

  /** "a" joins and is admitted. */
  function AAdmitted(): seq<Label> {
    AReads() + [DecideAndAdmit(7)]
  }

  lemma AfterAAdmitted()
    ensures Exec(SAME_POLICY, EMPTY_WORLD, AAdmitted()) == World(map[FIRST := A_IN], map[7 := A_DONE], [])
  {
    AfterAReads();
    FrontDecides(Exec(SAME_POLICY, EMPTY_WORLD, AReads()), 7, ROW_A);
    ExecSnoc(SAME_POLICY, EMPTY_WORLD, AReads(), DecideAndAdmit(7));
  }

  lemma AfterLateJoin()
    ensures Exec(SAME_POLICY, EMPTY_WORLD, AAdmitted() + BReads())
         == World(map[FIRST := A_IN, LATE := ROW_B], map[7 := A_DONE, 8 := B_READY], [])
  {
    AfterAAdmitted();
    AfterBReads(A_IN, A_DONE);
    ExecConcat(SAME_POLICY, EMPTY_WORLD, AAdmitted(), BReads());
    assert map[FIRST := A_IN][LATE := ROW_B] == map[FIRST := A_IN, LATE := ROW_B];
  }

  /**
   * A same-millisecond join with a smaller id breaks the bound, in a run from the empty
   * queue: "a" joins and is admitted, and the world is safe; then "b" joins ahead of it and
   * is admitted too, although only one has been released.
   */
  lemma SmallerKeyBreaksCapacity()
    ensures CapacityHoldsForever(SAME_POLICY, Exec(SAME_POLICY, EMPTY_WORLD, AAdmitted()), EXAM)
    ensures Exceeded(Exec(SAME_POLICY, EMPTY_WORLD, AAdmitted() + BReads() + [DecideAndAdmit(8)]).table)
  {
    AfterAAdmitted();
    AAdmittedIsSafe(Exec(SAME_POLICY, EMPTY_WORLD, AAdmitted()));
    AfterLateJoin();
    var w := Exec(SAME_POLICY, EMPTY_WORLD, AAdmitted() + BReads());
    FrontDecides(w, 8, ROW_B);
    ExecSnoc(SAME_POLICY, EMPTY_WORLD, AAdmitted() + BReads(), DecideAndAdmit(8));
    BothAdmittedExceeds(Next(SAME_POLICY, w, DecideAndAdmit(8)).table);
  }

  lemma AAdmittedIsSafe(w: World)
    requires w == World(map[FIRST := A_IN], map[7 := A_DONE], [])
    ensures CapacityHoldsForever(SAME_POLICY, w, EXAM)
  {
    assert ValidTable(w.table);
    AloneAtFront(w.table, w.table[FIRST]);
    assert Inv(SAME_POLICY, w);
    OnScheduleFits(SAME_POLICY, w, EXAM);
  }

  lemma AfterBothRead()
    ensures Exec(SAME_POLICY, EMPTY_WORLD, AReads() + BReads())
         == World(map[FIRST := ROW_A, LATE := ROW_B], map[7 := A_READY, 8 := B_READY], [])
    ensures ValidTable(map[FIRST := ROW_A, LATE := ROW_B])
  {
    AfterAReads();
    AfterBReads(ROW_A, A_READY);
    ExecConcat(SAME_POLICY, EMPTY_WORLD, AReads(), BReads());
    assert map[FIRST := ROW_A][LATE := ROW_B] == map[FIRST := ROW_A, LATE := ROW_B];
  }

  lemma BothDecide(w: World)
    requires w == World(map[FIRST := ROW_A, LATE := ROW_B], map[7 := A_READY, 8 := B_READY], [])
    ensures Exceeded(Exec(SAME_POLICY, w, [DecideAndAdmit(7), DecideAndAdmit(8)]).table)
  {
    var w1 := Next(SAME_POLICY, w, DecideAndAdmit(7));
    FrontDecides(w, 7, ROW_A);
    FrontDecides(w1, 8, ROW_B);
    BothAdmittedExceeds(Next(SAME_POLICY, w1, DecideAndAdmit(8)).table);
    assert Exec(SAME_POLICY, w, [DecideAndAdmit(7)]) == Exec(SAME_POLICY, w1, []);
    ExecSnoc(SAME_POLICY, w, [DecideAndAdmit(7)], DecideAndAdmit(8));
    assert [DecideAndAdmit(7)] + [DecideAndAdmit(8)] == [DecideAndAdmit(7), DecideAndAdmit(8)];
  }

  /**
   * The table alone does not decide: "b" joins ahead while the request of "a" is in flight
   * with its old ordinal. The table fits the release, the world does not, and the two
   * decisions admit both.
   */
  lemma StaleReadBreaksCapacity()
    ensures var w := Exec(SAME_POLICY, EMPTY_WORLD, AReads() + BReads());
      && Grounded(w) && TableFits(w.table, ONE_AT_A_TIME, EXAM)
      && !WorldFits(SAME_POLICY, w, EXAM) && !CapacityHoldsForever(SAME_POLICY, w, EXAM)
      && Exceeded(Exec(SAME_POLICY, w, [DecideAndAdmit(7), DecideAndAdmit(8)]).table)
  {
    var w := Exec(SAME_POLICY, EMPTY_WORLD, AReads() + BReads());
    AfterBothRead();
    NobodyAdmittedFits(w.table);
    BothDecide(w);
    var labels := [DecideAndAdmit(7), DecideAndAdmit(8)];
    JoinFreeIsInOrder(SAME_POLICY, w, labels);
    assert !CapacityHolds(Exec(SAME_POLICY, w, labels).table, ONE_AT_A_TIME, EXAM);
    assert Grounded(EMPTY_WORLD);
    RunKeepsGrounded(SAME_POLICY, EMPTY_WORLD, AReads() + BReads());
    CapacityForeverIffDemandFits(SAME_POLICY, w, EXAM);
  }

  /** A table on which nobody is admitted yet fits. */
  lemma NobodyAdmittedFits(t: Table)
    requires ValidTable(t) && forall id :: id in t ==> t[id].admittedAt.None? && t[id].consumedAt.None?
    ensures TableFits(t, ONE_AT_A_TIME, EXAM)
  {
    var w := World(t, map[], []);
    assert Inv(SAME_POLICY, w);
    OnScheduleFits(SAME_POLICY, w, EXAM);
    CapacityForeverIffTableFits(SAME_POLICY, w, EXAM);
  }
}
