/**
 * The admission queue as a transition system. Every read and the compare-and-set of
 * a reconciliation is a step of its own, so any number of requests interleave; the
 * instant `now` a request works with is captured by the request and may be stale.
 */
module AdmissionProtocol {
  import opened Prelude
  import opened AdmissionSchedule
  import opened AdmissionTable

  type Pid = nat

  type Policies = Exam -> Policy

  /** Where a request stands, with the values it has read so far. */
  datatype Proc =
    | Idle
    | GotRow(exam: Exam, candidate: Candidate, now: int, active: Row)
    | GotAnchor(exam: Exam, candidate: Candidate, now: int, active: Row, anchor: Option<int>)
    | GotOrdinal(exam: Exam, candidate: Candidate, now: int, active: Row, anchor: Option<int>, ordinal: nat)
    | Returned(exam: Exam, candidate: Candidate, now: int, result: Option<Row>)

  /** `starts` lists the memberships consumed by committed attempt starts, oldest first. */
  datatype World = World(table: Table, procs: map<Pid, Proc>, starts: seq<Id>)

  /**
   * `DecideAndAdmit` is the moment the write of a decision commits. A request whose transaction
   * rolls back, a start aborted after its gate included, is one that is abandoned before that.
   */
  datatype Label =
    | JoinQueue(exam: Exam, candidate: Candidate, at: int, id: Id)
    | ReadActive(pid: Pid, exam: Exam, candidate: Candidate, now: int)
    | ReadAnchor(pid: Pid)
    | ReadOrdinal(pid: Pid)
    | DecideAndAdmit(pid: Pid)
    | StartAttempt(pid: Pid, attempt: AttemptId)
    | Abandon(pid: Pid)

  const EMPTY_WORLD := World(map[], map[], [])

  function ProcOf(w: World, pid: Pid): Proc {
    if pid in w.procs then w.procs[pid] else Idle
  }

  function SetProc(w: World, pid: Pid, p: Proc): World {
    w.(procs := w.procs[pid := p])
  }

  ghost function NextReadActive(w: World, pid: Pid, e: Exam, c: Candidate, now: int): World {
    var active := FindActive(w.table, e, c);
    SetProc(w, pid,
      if active.None? || active.value.admittedAt.Some? then Returned(e, c, now, active)
      else GotRow(e, c, now, active.value))
  }

  /** The last step of reconcileAdmission; a lost compare-and-set hands back the stale row. */
  ghost function NextDecide(pol: Policies, w: World, pid: Pid, q: Proc): World
    requires q.GotOrdinal?
  {
    var p := pol(q.exam);
    if ComputeBatchNumber(q.ordinal, p) > ComputeBatchRelease(q.anchor, q.now, p).releasedBatches then
      SetProc(w, pid, Returned(q.exam, q.candidate, q.now, Some(q.active)))
    else
      var won := q.active.id in w.table && w.table[q.active.id].admittedAt.None?;
      var table' := AdmitOnce(w.table, q.active.id, q.now);
      SetProc(w.(table := table'), pid,
        Returned(q.exam, q.candidate, q.now, Some(if won then table'[q.active.id] else q.active)))
  }

  /** The gate test and the consumption, committed with the attempt or not at all. */
  ghost function NextStart(w: World, pid: Pid, q: Proc, attempt: AttemptId): World
    requires q.Returned?
  {
    if q.result.Some? && q.result.value.admittedAt.Some? && Consumable(w.table, q.exam, q.candidate) then
      SetProc(World(ConsumeActive(w.table, q.exam, q.candidate, q.now, attempt), w.procs,
                    w.starts + [FindActive(w.table, q.exam, q.candidate).value.id]), pid, Idle)
    else
      SetProc(w, pid, Idle)
  }

  ghost function Next(pol: Policies, w: World, l: Label): World {
    match l
    case JoinQueue(e, c, at, id) =>
      if id in w.table then w else w.(table := Join(w.table, e, c, at, id))
    case ReadActive(pid, e, c, now) =>
      if ProcOf(w, pid).Idle? then NextReadActive(w, pid, e, c, now) else w
    case ReadAnchor(pid) =>
      var q := ProcOf(w, pid);
      if q.GotRow?
      then SetProc(w, pid, GotAnchor(q.exam, q.candidate, q.now, q.active, EarliestJoinedAt(w.table, q.exam)))
      else w
    case ReadOrdinal(pid) =>
      var q := ProcOf(w, pid);
      if q.GotAnchor?
      then SetProc(w, pid, GotOrdinal(q.exam, q.candidate, q.now, q.active, q.anchor,
                                      Ordinal(w.table, q.exam, q.active.joinedAt, q.active.id)))
      else w
    case DecideAndAdmit(pid) =>
      if ProcOf(w, pid).GotOrdinal? then NextDecide(pol, w, pid, ProcOf(w, pid)) else w
    case StartAttempt(pid, attempt) =>
      if ProcOf(w, pid).Returned? then NextStart(w, pid, ProcOf(w, pid), attempt) else w
    case Abandon(pid) => SetProc(w, pid, Idle)
  }

  ghost function Exec(pol: Policies, w: World, labels: seq<Label>): World
    decreases |labels|
  {
    if labels == [] then w else Exec(pol, Next(pol, w, labels[0]), labels[1..])
  }

  // ----- the invariant of every run, whatever the joins

  /** The row a request read is still there, with the same queue key. */
  ghost predicate ReadFrom(t: Table, e: Exam, c: Candidate, r: Row) {
    && r.id in t && t[r.id].exam == r.exam == e && t[r.id].candidate == r.candidate == c
    && t[r.id].joinedAt == r.joinedAt
    && (r.admittedAt.Some? ==> t[r.id].admittedAt == r.admittedAt)
  }

  /**
   * The row a request has read is still there under the same key; one it is to decide on was
   * waiting when it was read.
   */
  ghost predicate RowGrounded(t: Table, q: Proc) {
    match q
    case Idle => true
    case GotRow(e, c, _, r) => ReadFrom(t, e, c, r) && r.admittedAt.None?
    case GotAnchor(e, c, _, r, _) => ReadFrom(t, e, c, r) && r.admittedAt.None?
    case GotOrdinal(e, c, _, r, _, _) => ReadFrom(t, e, c, r) && r.admittedAt.None?
    case Returned(e, c, _, result) => result.Some? ==> ReadFrom(t, e, c, result.value)
  }

  ghost predicate NoDuplicates(s: seq<Id>) {
    forall i, j :: 0 <= i < j < |s| ==> s[i] != s[j]
  }

  /** Each committed start consumed a membership of its own, and nothing else did. */
  ghost predicate StartsMatch(t: Table, starts: seq<Id>) {
    && NoDuplicates(starts)
    && forall id :: id in starts <==> id in t && t[id].consumedAt.Some?
  }

  ghost predicate Grounded(w: World) {
    && ValidTable(w.table)
    && StartsMatch(w.table, w.starts)
    && forall pid :: pid in w.procs ==> RowGrounded(w.table, w.procs[pid])
  }

  lemma RowStaysGrounded(t: Table, t': Table, q: Proc)
    requires Evolves(t, t') && RowGrounded(t, q)
    ensures RowGrounded(t', q)
  {
  }

  lemma ConsumeKeepsStartsMatch(t: Table, e: Exam, c: Candidate, at: int, attempt: AttemptId, starts: seq<Id>)
    requires ValidTable(t) && StartsMatch(t, starts) && Consumable(t, e, c)
    ensures StartsMatch(ConsumeActive(t, e, c, at, attempt), starts + [FindActive(t, e, c).value.id])
  {
    var id := FindActive(t, e, c).value.id;
    assert id !in starts;
  }

  lemma ConsumeEvolves(t: Table, e: Exam, c: Candidate, at: int, attempt: AttemptId)
    requires ValidTable(t) && Consumable(t, e, c)
    ensures Evolves(t, ConsumeActive(t, e, c, at, attempt))
    ensures forall id :: id in t ==> ConsumeActive(t, e, c, at, attempt)[id].admittedAt == t[id].admittedAt
  {
  }

  lemma DecideEvolves(pol: Policies, w: World, pid: Pid)
    requires Grounded(w) && ProcOf(w, pid).GotOrdinal?
    ensures var w' := Next(pol, w, DecideAndAdmit(pid));
      && ValidTable(w'.table) && Evolves(w.table, w'.table) && SameKeys(w.table, w'.table)
      && StartsMatch(w'.table, w'.starts)
  {
    var q := ProcOf(w, pid);
    AdmitOnceKeeps(w.table, q.active.id, q.now);
    assert Next(pol, w, DecideAndAdmit(pid)).table in {w.table, AdmitOnce(w.table, q.active.id, q.now)};
  }

  lemma StartEvolves(pol: Policies, w: World, pid: Pid, attempt: AttemptId)
    requires Grounded(w) && ProcOf(w, pid).Returned?
    ensures var w' := Next(pol, w, StartAttempt(pid, attempt));
      && ValidTable(w'.table) && Evolves(w.table, w'.table) && SameKeys(w.table, w'.table)
      && StartsMatch(w'.table, w'.starts)
  {
    var q := ProcOf(w, pid);
    if Consumable(w.table, q.exam, q.candidate) {
      ConsumeActiveKeeps(w.table, q.exam, q.candidate, q.now, attempt);
      ConsumeEvolves(w.table, q.exam, q.candidate, q.now, attempt);
      ConsumeKeepsStartsMatch(w.table, q.exam, q.candidate, q.now, attempt, w.starts);
    }
  }

  /** The table part of a step: constraints and memberships are kept, and without a join the keys too. */
  lemma StepEvolves(pol: Policies, w: World, l: Label)
    requires Grounded(w)
    ensures var w' := Next(pol, w, l);
      && ValidTable(w'.table) && Evolves(w.table, w'.table) && (!l.JoinQueue? ==> SameKeys(w.table, w'.table))
      && StartsMatch(w'.table, w'.starts)
  {
    match l
    case JoinQueue(e, c, at, id) =>
      if id !in w.table {
        JoinValid(w.table, e, c, at, id);
        JoinEvolves(w.table, e, c, at, id);
      }
    case DecideAndAdmit(pid) =>
      if ProcOf(w, pid).GotOrdinal? {
        DecideEvolves(pol, w, pid);
      }
    case StartAttempt(pid, attempt) =>
      if ProcOf(w, pid).Returned? {
        StartEvolves(pol, w, pid, attempt);
      }
    case _ =>
  }

  /** Only its own step moves a request, to a state that the table the step leaves supports. */
  lemma MovedRowGrounded(pol: Policies, w: World, l: Label, pid: Pid)
    requires Grounded(w)
    requires var w' := Next(pol, w, l); pid in w'.procs && (pid !in w.procs || w'.procs[pid] != w.procs[pid])
    ensures RowGrounded(Next(pol, w, l).table, Next(pol, w, l).procs[pid])
  {
    var w' := Next(pol, w, l);
    StepEvolves(pol, w, l);
    if pid in w.procs {
      RowStaysGrounded(w.table, w'.table, w.procs[pid]);
    }
  }

  lemma StepKeepsGrounded(pol: Policies, w: World, l: Label)
    requires Grounded(w)
    ensures Grounded(Next(pol, w, l)) && Evolves(w.table, Next(pol, w, l).table)
  {
    var w' := Next(pol, w, l);
    StepEvolves(pol, w, l);
    forall pid | pid in w'.procs
      ensures RowGrounded(w'.table, w'.procs[pid])
    {
      if pid in w.procs && w'.procs[pid] == w.procs[pid] {
        RowStaysGrounded(w.table, w'.table, w.procs[pid]);
      } else {
        MovedRowGrounded(pol, w, l, pid);
      }
    }
  }

  lemma {:induction false} RunKeepsGrounded(pol: Policies, w: World, labels: seq<Label>)
    requires Grounded(w)
    ensures Grounded(Exec(pol, w, labels)) && Evolves(w.table, Exec(pol, w, labels).table)
    decreases |labels|
  {
    if labels != [] {
      var w1 := Next(pol, w, labels[0]);
      StepKeepsGrounded(pol, w, labels[0]);
      RunKeepsGrounded(pol, w1, labels[1..]);
      EvolvesTransitive(w.table, w1.table, Exec(pol, w, labels).table);
    }
  }

  /** Worlds some run reaches from the empty queue. */
  ghost predicate Reachable(pol: Policies, w: World) {
    exists labels :: w == Exec(pol, EMPTY_WORLD, labels)
  }

  lemma ReachableGrounded(pol: Policies, w: World)
    requires Reachable(pol, w)
    ensures Grounded(w)
  {
    var labels :| w == Exec(pol, EMPTY_WORLD, labels);
    RunKeepsGrounded(pol, EMPTY_WORLD, labels);
  }

  // ----- the life of a membership

  /**
   * Reachable tables: one active membership per candidate and exam, consumption only
   * after admission, and as many consumed memberships as committed starts, one each.
   */
  lemma MembershipLifecycle(pol: Policies, w: World)
    requires Reachable(pol, w)
    ensures forall e, c, a, b :: IsActive(w.table, e, c, a) && IsActive(w.table, e, c, b) ==> a == b
    ensures forall id :: id in w.table && w.table[id].consumedAt.Some? ==> w.table[id].admittedAt.Some?
    ensures NoDuplicates(w.starts)
    ensures forall id :: id in w.starts <==> id in w.table && w.table[id].consumedAt.Some?
  {
    ReachableGrounded(pol, w);
  }

  /** Timestamps are written once: nothing a later run does changes or erases one. */
  lemma TimestampsWrittenOnce(pol: Policies, w: World, labels: seq<Label>, id: Id)
    requires Reachable(pol, w) && id in w.table
    ensures var before, after := w.table[id], Exec(pol, w, labels).table;
      && id in after && after[id].joinedAt == before.joinedAt
      && (before.admittedAt.Some? ==> after[id].admittedAt == before.admittedAt)
      && (before.consumedAt.Some? ==>
            after[id].consumedAt == before.consumedAt && after[id].consumedAttempt == before.consumedAttempt)
  {
    ReachableGrounded(pol, w);
    RunKeepsGrounded(pol, w, labels);
  }

  /** The gate is fail-closed: an admitted row in a request's hands is the durable fact, even after a lost race. */
  lemma GateImpliesDurableFact(pol: Policies, w: World, pid: Pid)
    requires Reachable(pol, w) && ProcOf(w, pid).Returned?
    requires ProcOf(w, pid).result.Some? && ProcOf(w, pid).result.value.admittedAt.Some?
    ensures var r := ProcOf(w, pid).result.value;
      r.id in w.table && w.table[r.id].admittedAt == r.admittedAt
  {
    ReachableGrounded(pol, w);
    assert RowGrounded(w.table, w.procs[pid]);
  }

  /** Racing reconciliations converge: once one decides for admission, the durable fact exists. */
  lemma DecisionLeavesDurableFact(pol: Policies, w: World, pid: Pid)
    requires Reachable(pol, w) && ProcOf(w, pid).GotOrdinal?
    requires Eligible(ProcOf(w, pid).anchor, ProcOf(w, pid).ordinal, ProcOf(w, pid).now, pol(ProcOf(w, pid).exam))
    ensures var q := ProcOf(w, pid);
      var t' := Next(pol, w, DecideAndAdmit(pid)).table;
      q.active.id in t' && t'[q.active.id].admittedAt.Some?
  {
    ReachableGrounded(pol, w);
    assert RowGrounded(w.table, w.procs[pid]);
  }

  /** Where a decision leaves its request and its membership: not due, due and first, due and too late. */
  lemma DecisionOutcome(pol: Policies, w: World, pid: Pid)
    requires Reachable(pol, w) && ProcOf(w, pid).GotOrdinal?
    ensures ProcOf(w, pid).active.id in w.table
    ensures var q := ProcOf(w, pid);
      var w' := Next(pol, w, DecideAndAdmit(pid));
      var row := w.table[q.active.id];
      && q.active.admittedAt.None? && w'.starts == w.starts
      && (forall i :: i in w.procs && i != pid ==> i in w'.procs && w'.procs[i] == w.procs[i])
      && (if Eligible(q.anchor, q.ordinal, q.now, pol(q.exam)) && row.admittedAt.None? then
            && w'.table == w.table[q.active.id := row.(admittedAt := Some(q.now))]
            && ProcOf(w', pid) == Returned(q.exam, q.candidate, q.now, Some(row.(admittedAt := Some(q.now))))
          else
            w'.table == w.table && ProcOf(w', pid) == Returned(q.exam, q.candidate, q.now, Some(q.active)))
  {
    ReachableGrounded(pol, w);
    assert RowGrounded(w.table, w.procs[pid]);
  }

  /**
   * The loser of the race fails closed: a due request whose membership somebody else has
   * admitted since it read it is handed the stale row, unadmitted, and a start it attempts
   * with that row changes nothing.
   */
  lemma LoserFailsClosed(pol: Policies, w: World, pid: Pid, attempt: AttemptId)
    requires Reachable(pol, w) && ProcOf(w, pid).GotOrdinal?
    requires ProcOf(w, pid).active.id in w.table && w.table[ProcOf(w, pid).active.id].admittedAt.Some?
    ensures var q := ProcOf(w, pid);
      var w' := Next(pol, w, DecideAndAdmit(pid));
      var w'' := Next(pol, w', StartAttempt(pid, attempt));
      && ProcOf(w', pid) == Returned(q.exam, q.candidate, q.now, Some(q.active)) && q.active.admittedAt.None?
      && w''.table == w'.table == w.table && w''.starts == w'.starts == w.starts
  {
    DecisionOutcome(pol, w, pid);
  }

  /** A start takes effect exactly when the request holds an admitted row and the active membership is admitted. */
  lemma StartTakesEffectIff(pol: Policies, w: World, pid: Pid, attempt: AttemptId)
    requires Reachable(pol, w) && ProcOf(w, pid).Returned?
    ensures var q := ProcOf(w, pid);
      var w' := Next(pol, w, StartAttempt(pid, attempt));
      && ProcOf(w', pid).Idle?
      && (w'.starts != w.starts <==>
            && q.result.Some? && q.result.value.admittedAt.Some?
            && exists id :: IsActive(w.table, q.exam, q.candidate, id) && w.table[id].admittedAt.Some?)
  {
    ReachableGrounded(pol, w);
    var q := ProcOf(w, pid);
    if id :| IsActive(w.table, q.exam, q.candidate, id) && w.table[id].admittedAt.Some? {
      FindActiveUnique(w.table, q.exam, q.candidate, id);
    }
  }

  /** Abandoning a request, or beginning one while another is under way, touches nothing durable. */
  lemma RequestsBeginAndEnd(pol: Policies, w: World, pid: Pid, e: Exam, c: Candidate, now: int)
    ensures var w' := Next(pol, w, Abandon(pid));
      ProcOf(w', pid) == Idle && w'.table == w.table && w'.starts == w.starts
    ensures !ProcOf(w, pid).Idle? ==> Next(pol, w, ReadActive(pid, e, c, now)) == w
  {
  }

  /** A start that commits consumes exactly one membership, active and admitted when it was consumed. */
  lemma StartConsumesOneAdmitted(pol: Policies, w: World, pid: Pid, attempt: AttemptId)
    requires Reachable(pol, w) && ProcOf(w, pid).Returned?
    ensures var w' := Next(pol, w, StartAttempt(pid, attempt));
      || (w'.starts == w.starts && w'.table == w.table)
      || exists id ::
           && IsActive(w.table, ProcOf(w, pid).exam, ProcOf(w, pid).candidate, id)
           && w.table[id].admittedAt.Some?
           && w'.starts == w.starts + [id]
           && w'.table ==
              w.table[id := w.table[id].(consumedAt := Some(ProcOf(w, pid).now), consumedAttempt := Some(attempt))]
  {
    ReachableGrounded(pol, w);
  }

  // ----- timestamps in order

  ghost predicate OrderedRow(r: Row) {
    && (r.admittedAt.Some? ==> r.joinedAt <= r.admittedAt.value)
    && (r.admittedAt.Some? && r.consumedAt.Some? ==> r.admittedAt.value <= r.consumedAt.value)
  }

  ghost predicate OrderedTable(t: Table) {
    forall id :: id in t ==> OrderedRow(t[id])
  }

  /** A step that writes a timestamp writes one no earlier than the one it builds on. */
  ghost predicate Timely(pol: Policies, w: World, l: Label) {
    match l
    case DecideAndAdmit(pid) =>
      var q := ProcOf(w, pid);
      (q.GotOrdinal? && Eligible(q.anchor, q.ordinal, q.now, pol(q.exam)) &&
       q.active.id in w.table && w.table[q.active.id].admittedAt.None?) ==> q.active.joinedAt <= q.now
    case StartAttempt(pid, _) =>
      var q := ProcOf(w, pid);
      q.Returned? && q.result.Some? && q.result.value.admittedAt.Some? && Consumable(w.table, q.exam, q.candidate) ==>
        FindActive(w.table, q.exam, q.candidate).value.admittedAt.value <= q.now
    case _ => true
  }

  lemma AdmissionOrderedIff(t: Table, id: Id, at: int)
    requires OrderedTable(t) && id in t && t[id].admittedAt.None? && t[id].consumedAt.None?
    ensures OrderedTable(AdmitOnce(t, id, at)) <==> t[id].joinedAt <= at
  {
    assert AdmitOnce(t, id, at)[id].admittedAt == Some(at);
  }

  lemma ConsumptionOrderedIff(t: Table, e: Exam, c: Candidate, at: int, attempt: AttemptId)
    requires ValidTable(t) && OrderedTable(t) && Consumable(t, e, c)
    ensures OrderedTable(ConsumeActive(t, e, c, at, attempt)) <==> FindActive(t, e, c).value.admittedAt.value <= at
  {
    var id := FindActive(t, e, c).value.id;
    var t' := ConsumeActive(t, e, c, at, attempt);
    assert t'[id].consumedAt == Some(at);
    if FindActive(t, e, c).value.admittedAt.value <= at {
      assert OrderedRow(t[id]);
      assert forall i :: i in t' && i != id ==> t'[i] == t[i];
    }
  }

  /** Exactly when a step keeps joined <= admitted <= consumed: the instant its request captured is not too early. */
  lemma StepOrderedIffTimely(pol: Policies, w: World, l: Label)
    requires Grounded(w) && OrderedTable(w.table)
    ensures OrderedTable(Next(pol, w, l).table) <==> Timely(pol, w, l)
  {
    if l.DecideAndAdmit? && ProcOf(w, l.pid).GotOrdinal? {
      var q := ProcOf(w, l.pid);
      assert RowGrounded(w.table, w.procs[l.pid]);
      if w.table[q.active.id].admittedAt.None? {
        AdmissionOrderedIff(w.table, q.active.id, q.now);
      }
    } else if l.StartAttempt? && ProcOf(w, l.pid).Returned? {
      var q := ProcOf(w, l.pid);
      if Consumable(w.table, q.exam, q.candidate) {
        ConsumptionOrderedIff(w.table, q.exam, q.candidate, q.now, l.attempt);
      }
    }
  }

  ghost predicate TimelyRun(pol: Policies, w: World, labels: seq<Label>)
    decreases |labels|
  {
    labels != [] ==> Timely(pol, w, labels[0]) && TimelyRun(pol, Next(pol, w, labels[0]), labels[1..])
  }

  ghost predicate OrderedThroughout(pol: Policies, w: World, labels: seq<Label>)
    decreases |labels|
  {
    OrderedTable(w.table) && (labels != [] ==> OrderedThroughout(pol, Next(pol, w, labels[0]), labels[1..]))
  }

  /**
   * Over a run every membership has joined <= admitted <= consumed throughout if and only if
   * every write was timely.
   */
  lemma {:induction false} OrderedThroughoutIffTimely(pol: Policies, w: World, labels: seq<Label>)
    requires Grounded(w) && OrderedTable(w.table)
    ensures OrderedThroughout(pol, w, labels) <==> TimelyRun(pol, w, labels)
    decreases |labels|
  {
    if labels != [] {
      var w1 := Next(pol, w, labels[0]);
      StepKeepsGrounded(pol, w, labels[0]);
      StepOrderedIffTimely(pol, w, labels[0]);
      if OrderedTable(w1.table) {
        OrderedThroughoutIffTimely(pol, w1, labels[1..]);
      }
    }
  }
}
