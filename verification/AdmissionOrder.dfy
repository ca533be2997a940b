/**
 * What holds when joins arrive in order, each behind the others of its exam: the schedule
 * never moves, so reads stay fresh, capacity holds, and nobody overtakes.
 */
module AdmissionOrder {
  import opened Prelude
  import opened AdmissionSchedule
  import opened AdmissionTable
  import opened AdmissionProtocol

  /** The one hypothesis on joins: a new membership's key is behind those already in its exam. */
  ghost predicate JoinsBehind(w: World, l: Label) {
    l.JoinQueue? ==>
      || l.id in w.table
      || HasActive(w.table, l.exam, l.candidate)
      || BehindAll(w.table, l.exam, l.at, l.id)
  }

  ghost predicate JoinsBehindRun(pol: Policies, w: World, labels: seq<Label>)
    decreases |labels|
  {
    labels != [] ==> JoinsBehind(w, labels[0]) && JoinsBehindRun(pol, Next(pol, w, labels[0]), labels[1..])
  }

  // ----- the invariant

  /** Every admitted membership was due at the instant it was admitted. */
  ghost predicate OnSchedule(pol: Policies, t: Table) {
    forall id :: id in t && t[id].admittedAt.Some? ==> EligibleIn(t, pol(t[id].exam), id, t[id].admittedAt.value)
  }

  /** What a request has read of the schedule is still so. */
  ghost predicate FreshReads(t: Table, q: Proc) {
    match q
    case GotAnchor(e, _, _, _, anchor) => anchor == EarliestJoinedAt(t, e)
    case GotOrdinal(e, _, _, r, anchor, ordinal) =>
      anchor == EarliestJoinedAt(t, e) && ordinal == Ordinal(t, e, r.joinedAt, r.id)
    case _ => true
  }

  ghost predicate Inv(pol: Policies, w: World) {
    && Grounded(w)
    && OnSchedule(pol, w.table)
    && forall pid :: pid in w.procs ==> FreshReads(w.table, w.procs[pid])
  }

  /** The schedule of every membership present in `t` is the same in `t'`. */
  ghost predicate SameSchedule(t: Table, t': Table) {
    forall e, id :: IsMember(t, e, id) ==>
      && EarliestJoinedAt(t', e) == EarliestJoinedAt(t, e)
      && Ordinal(t', e, t[id].joinedAt, id) == Ordinal(t, e, t[id].joinedAt, id)
  }

  lemma SameKeysSameSchedule(t: Table, t': Table)
    requires SameKeys(t, t')
    ensures SameSchedule(t, t')
  {
    forall e, id | IsMember(t, e, id)
      ensures EarliestJoinedAt(t', e) == EarliestJoinedAt(t, e)
      ensures Ordinal(t', e, t[id].joinedAt, id) == Ordinal(t, e, t[id].joinedAt, id)
    {
      ScheduleDependsOnKeys(t, t', e);
    }
  }

  lemma StepKeepsSchedule(pol: Policies, w: World, l: Label)
    requires Grounded(w) && JoinsBehind(w, l)
    ensures SameSchedule(w.table, Next(pol, w, l).table)
  {
    if l.JoinQueue? {
      if l.id !in w.table {
        JoinBehindKeepsSchedule(w.table, l.exam, l.candidate, l.at, l.id);
      }
    } else {
      StepEvolves(pol, w, l);
      SameKeysSameSchedule(w.table, Next(pol, w, l).table);
    }
  }

  lemma ReadsStayFresh(t: Table, t': Table, q: Proc)
    requires SameSchedule(t, t') && RowGrounded(t, q) && FreshReads(t, q)
    ensures FreshReads(t', q)
  {
    if q.GotAnchor? || q.GotOrdinal? {
      assert IsMember(t, q.exam, q.active.id);
    }
  }

  lemma MovedReadsFresh(pol: Policies, w: World, l: Label, pid: Pid)
    requires Inv(pol, w)
    requires var w' := Next(pol, w, l); pid in w'.procs && (pid !in w.procs || w'.procs[pid] != w.procs[pid])
    ensures FreshReads(Next(pol, w, l).table, Next(pol, w, l).procs[pid])
  {
    assert pid in w.procs ==> FreshReads(w.table, w.procs[pid]);
  }

  lemma ScheduleCarriesOver(pol: Policies, t: Table, t': Table, id: Id, now: int)
    requires SameSchedule(t, t') && id in t && id in t'
    requires t'[id].exam == t[id].exam && t'[id].joinedAt == t[id].joinedAt
    ensures EligibleIn(t', pol(t[id].exam), id, now) == EligibleIn(t, pol(t[id].exam), id, now)
  {
    assert IsMember(t, t[id].exam, id);
  }

  /** What a step newly admits was due. */
  lemma AdmissionIsDue(pol: Policies, w: World, l: Label, id: Id)
    requires Inv(pol, w) && id in Next(pol, w, l).table && Next(pol, w, l).table[id].admittedAt.Some?
    requires id !in w.table || w.table[id].admittedAt.None?
    ensures id in w.table
    ensures EligibleIn(w.table, pol(w.table[id].exam), id, Next(pol, w, l).table[id].admittedAt.value)
  {
    assert l.DecideAndAdmit? && ProcOf(w, l.pid).GotOrdinal?;
    assert RowGrounded(w.table, w.procs[l.pid]) && FreshReads(w.table, w.procs[l.pid]);
  }

  lemma StepKeepsOnSchedule(pol: Policies, w: World, l: Label)
    requires Inv(pol, w) && JoinsBehind(w, l)
    ensures OnSchedule(pol, Next(pol, w, l).table)
  {
    var t, t' := w.table, Next(pol, w, l).table;
    StepEvolves(pol, w, l);
    StepKeepsSchedule(pol, w, l);
    forall id | id in t' && t'[id].admittedAt.Some?
      ensures EligibleIn(t', pol(t'[id].exam), id, t'[id].admittedAt.value)
    {
      if id !in t || t[id].admittedAt.None? {
        AdmissionIsDue(pol, w, l, id);
      }
      ScheduleCarriesOver(pol, t, t', id, t'[id].admittedAt.value);
    }
  }

  /** Every step keeps the invariant and the schedule of every membership. */
  lemma StepKeepsInvariant(pol: Policies, w: World, l: Label)
    requires Inv(pol, w) && JoinsBehind(w, l)
    ensures Inv(pol, Next(pol, w, l)) && Evolves(w.table, Next(pol, w, l).table)
    ensures SameSchedule(w.table, Next(pol, w, l).table)
  {
    var w' := Next(pol, w, l);
    StepKeepsGrounded(pol, w, l);
    StepKeepsSchedule(pol, w, l);
    StepKeepsOnSchedule(pol, w, l);
    forall pid | pid in w'.procs
      ensures FreshReads(w'.table, w'.procs[pid])
    {
      if pid in w.procs && w'.procs[pid] == w.procs[pid] {
        ReadsStayFresh(w.table, w'.table, w.procs[pid]);
      } else {
        MovedReadsFresh(pol, w, l, pid);
      }
    }
  }

  lemma {:induction false} RunKeepsInvariant(pol: Policies, w: World, labels: seq<Label>)
    requires Inv(pol, w) && JoinsBehindRun(pol, w, labels)
    ensures Inv(pol, Exec(pol, w, labels))
    ensures Evolves(w.table, Exec(pol, w, labels).table) && SameSchedule(w.table, Exec(pol, w, labels).table)
    decreases |labels|
  {
    if labels != [] {
      var w1 := Next(pol, w, labels[0]);
      StepKeepsInvariant(pol, w, labels[0]);
      RunKeepsInvariant(pol, w1, labels[1..]);
      var t, t1, t2 := w.table, w1.table, Exec(pol, w, labels).table;
      forall e, id | IsMember(t, e, id)
        ensures EarliestJoinedAt(t2, e) == EarliestJoinedAt(t, e)
        ensures Ordinal(t2, e, t[id].joinedAt, id) == Ordinal(t, e, t[id].joinedAt, id)
      {
        assert IsMember(t1, e, id);
      }
    }
  }

  /** Worlds reachable from the empty queue when joins arrive behind each other. */
  ghost predicate ReachableInOrder(pol: Policies, w: World) {
    exists labels :: JoinsBehindRun(pol, EMPTY_WORLD, labels) && w == Exec(pol, EMPTY_WORLD, labels)
  }

  lemma InOrderInvariant(pol: Policies, w: World)
    requires ReachableInOrder(pol, w)
    ensures Inv(pol, w) && Reachable(pol, w)
  {
    var labels :| JoinsBehindRun(pol, EMPTY_WORLD, labels) && w == Exec(pol, EMPTY_WORLD, labels);
    assert Inv(pol, EMPTY_WORLD);
    RunKeepsInvariant(pol, EMPTY_WORLD, labels);
  }

  // ----- capacity

  ghost function AdmittedBy(t: Table, e: Exam, at: int): set<Id> {
    set id | id in t && t[id].exam == e && t[id].admittedAt.Some? && t[id].admittedAt.value <= at
  }

  lemma {:induction false} LastOf(t: Table, e: Exam, ids: set<Id>) returns (last: Id)
    requires ids != {} && forall id :: id in ids ==> id in t && t[id].exam == e
    ensures last in ids
    ensures forall id :: id in ids && id != last ==> Ahead(t[id].joinedAt, id, t[last].joinedAt, last)
    decreases ids
  {
    last :| last in ids;
    if ids != {last} {
      var rest := LastOf(t, e, ids - {last});
      AheadTotal(t[rest].joinedAt, rest, t[last].joinedAt, last);
      if Ahead(t[last].joinedAt, last, t[rest].joinedAt, rest) {
        last := rest;
      } else {
        forall id | id in ids && id != last
          ensures Ahead(t[id].joinedAt, id, t[last].joinedAt, last)
        {
          if id != rest {
            AheadTransitive(t[id].joinedAt, id, t[rest].joinedAt, rest, t[last].joinedAt, last);
          }
        }
      }
    }
  }

  /** Memberships of one exam whose ordinals fit a bound are no more than the bound. */
  lemma BoundedOrdinalsBoundCount(t: Table, e: Exam, ids: set<Id>, bound: nat)
    requires forall id :: id in ids ==> id in t && t[id].exam == e && Ordinal(t, e, t[id].joinedAt, id) <= bound
    ensures |ids| <= bound
  {
    if ids != {} {
      var last := LastOf(t, e, ids);
      var ahead := AheadIds(t, e, t[last].joinedAt, last);
      assert ids - {last} <= ahead;
      SubsetSize(ids - {last}, ahead);
    }
  }

  /**
   * Capacity: in every world reached in order, at every instant, the memberships ever
   * admitted by that instant are at most what the schedule has released by then.
   */
  lemma CapacityNeverExceeded(pol: Policies, w: World, e: Exam, at: int)
    requires ReachableInOrder(pol, w)
    ensures |AdmittedBy(w.table, e, at)|
         <= ComputeBatchRelease(EarliestJoinedAt(w.table, e), at, pol(e)).releasedCount
  {
    InOrderInvariant(pol, w);
    var t := w.table;
    var anchor := EarliestJoinedAt(t, e);
    forall id | id in AdmittedBy(t, e, at)
      ensures id in t && t[id].exam == e
      ensures Ordinal(t, e, t[id].joinedAt, id) <= ComputeBatchRelease(anchor, at, pol(e)).releasedCount
    {
      var when := t[id].admittedAt.value;
      EligibleIffWithinCount(anchor, Ordinal(t, e, t[id].joinedAt, id), when, pol(e));
      ReleaseMonotone(anchor, when, at, pol(e));
    }
    BoundedOrdinalsBoundCount(t, e, AdmittedBy(t, e, at), ComputeBatchRelease(anchor, at, pol(e)).releasedCount);
  }

  // ----- stale reads and overtaking

  /** A decision taken from values read earlier is the decision the current table would give. */
  lemma StaleReadsStaySound(pol: Policies, w: World, pid: Pid)
    requires ReachableInOrder(pol, w) && ProcOf(w, pid).GotOrdinal?
    ensures var q := ProcOf(w, pid);
      && q.active.id in w.table && w.table[q.active.id].exam == q.exam
      && (Eligible(q.anchor, q.ordinal, q.now, pol(q.exam)) <==> EligibleIn(w.table, pol(q.exam), q.active.id, q.now))
  {
    InOrderInvariant(pol, w);
    assert RowGrounded(w.table, w.procs[pid]) && FreshReads(w.table, w.procs[pid]);
  }

  /** Whatever happens between a request's reads and its decision, the schedule it read is unmoved. */
  lemma ReadsOutliveInterleaving(pol: Policies, w: World, labels: seq<Label>, e: Exam, id: Id)
    requires ReachableInOrder(pol, w) && JoinsBehindRun(pol, w, labels) && IsMember(w.table, e, id)
    ensures var later := Exec(pol, w, labels).table;
      && IsMember(later, e, id)
      && EarliestJoinedAt(later, e) == EarliestJoinedAt(w.table, e)
      && Ordinal(later, e, later[id].joinedAt, id) == Ordinal(w.table, e, w.table[id].joinedAt, id)
  {
    InOrderInvariant(pol, w);
    RunKeepsInvariant(pol, w, labels);
  }

  lemma AheadHasSmallerOrdinal(t: Table, e: Exam, a: Id, b: Id)
    requires IsMember(t, e, a) && IsMember(t, e, b) && Ahead(t[a].joinedAt, a, t[b].joinedAt, b)
    ensures Ordinal(t, e, t[a].joinedAt, a) < Ordinal(t, e, t[b].joinedAt, b)
  {
    var x, y := AheadIds(t, e, t[a].joinedAt, a), AheadIds(t, e, t[b].joinedAt, b);
    forall id | id in x
      ensures id in y
    {
      AheadTransitive(t[id].joinedAt, id, t[a].joinedAt, a, t[b].joinedAt, b);
    }
    AheadTotal(t[a].joinedAt, a, t[a].joinedAt, a);
    if a in x {
      AheadAsymmetric(t[a].joinedAt, a, t[a].joinedAt, a);
    }
    SubsetSize(x, y - {a});
  }

  /** Nobody overtakes: when a membership is admitted, everyone ahead of it was already eligible. */
  lemma NobodyOvertakes(pol: Policies, w: World, e: Exam, admitted: Id, ahead: Id)
    requires ReachableInOrder(pol, w)
    requires IsMember(w.table, e, admitted) && w.table[admitted].admittedAt.Some?
    requires IsMember(w.table, e, ahead)
    requires Ahead(w.table[ahead].joinedAt, ahead, w.table[admitted].joinedAt, admitted)
    ensures EligibleIn(w.table, pol(e), ahead, w.table[admitted].admittedAt.value)
  {
    InOrderInvariant(pol, w);
    var t, when := w.table, w.table[admitted].admittedAt.value;
    AheadHasSmallerOrdinal(t, e, ahead, admitted);
    EligibleIffWithinCount(EarliestJoinedAt(t, e), Ordinal(t, e, t[admitted].joinedAt, admitted), when, pol(e));
    EligibleIffWithinCount(EarliestJoinedAt(t, e), Ordinal(t, e, t[ahead].joinedAt, ahead), when, pol(e));
  }
}
