/**
 * The durable membership table behind the admission queue: its reads and its
 * three writes.
 */
module AdmissionTable {
  import opened Prelude
  import opened Text
  import opened AdmissionSchedule

  type Id = Text
  type Candidate = string
  type AttemptId = string

  datatype Exam = Exam(organization: string, exam: string)

  datatype Row = Row(
    id: Id,
    exam: Exam,
    candidate: Candidate,
    joinedAt: int,
    admittedAt: Option<int>,
    consumedAt: Option<int>,
    consumedAttempt: Option<AttemptId>)

  type Table = map<Id, Row>

  datatype AdmissionState = Waiting | Admitted | Consumed

  function DeriveAdmissionState(r: Row): AdmissionState {
    if r.consumedAt.Some? then Consumed else if r.admittedAt.None? then Waiting else Admitted
  }

  /** A state against the timestamps of its row. */
  ghost predicate StateShows(s: AdmissionState, r: Row) {
    && (s == Consumed <==> r.consumedAt.Some?)
    && (s == Waiting <==> r.consumedAt.None? && r.admittedAt.None?)
    && (s == Admitted <==> r.consumedAt.None? && r.admittedAt.Some?)
  }

  /** Strict order of the queue: (joined_at, id). */
  predicate Ahead(joinedA: int, a: Id, joinedB: int, b: Id) {
    joinedA < joinedB || (joinedA == joinedB && Less(a, b))
  }

  lemma AheadTransitive(x: int, a: Id, y: int, b: Id, z: int, c: Id)
    requires Ahead(x, a, y, b) && Ahead(y, b, z, c)
    ensures Ahead(x, a, z, c)
  {
    if x == y == z {
      LessTransitive(a, b, c);
    }
  }

  lemma AheadTotal(x: int, a: Id, y: int, b: Id)
    ensures Ahead(x, a, y, b) || Ahead(y, b, x, a) || (x == y && a == b)
  {
    LessTotal(a, b);
  }

  lemma AheadAsymmetric(x: int, a: Id, y: int, b: Id)
    requires Ahead(x, a, y, b)
    ensures !Ahead(y, b, x, a) && (x, a) != (y, b)
  {
    if x == y {
      LessAsymmetric(a, b);
    }
  }

  // ----- well-formed tables

  predicate IsMember(t: Table, e: Exam, id: Id) {
    id in t && t[id].exam == e
  }

  predicate IsActive(t: Table, e: Exam, c: Candidate, id: Id) {
    IsMember(t, e, id) && t[id].candidate == c && t[id].consumedAt.None?
  }

  /** The constraints the database carries: primary key, partial unique index, both checks. */
  ghost predicate ValidTable(t: Table) {
    && (forall id :: id in t ==> t[id].id == id)
    && (forall e, c, a, b :: IsActive(t, e, c, a) && IsActive(t, e, c, b) ==> a == b)
    && (forall id :: id in t ==> (t[id].consumedAt.Some? <==> t[id].consumedAttempt.Some?))
    && (forall id :: id in t ==> (t[id].consumedAt.Some? ==> t[id].admittedAt.Some?))
  }

  // ----- reads

  ghost predicate HasActive(t: Table, e: Exam, c: Candidate) {
    exists id :: IsActive(t, e, c, id)
  }

  ghost function FindActive(t: Table, e: Exam, c: Candidate): (r: Option<Row>)
    ensures r.None? ==> !HasActive(t, e, c)
    ensures r.Some? ==> exists id :: IsActive(t, e, c, id) && t[id] == r.value
  {
    if HasActive(t, e, c) then
      var id :| IsActive(t, e, c, id);
      Some(t[id])
    else
      None
  }

  lemma FindActiveUnique(t: Table, e: Exam, c: Candidate, id: Id)
    requires ValidTable(t) && IsActive(t, e, c, id)
    ensures FindActive(t, e, c) == Some(t[id])
  {
  }

  function AheadIds(t: Table, e: Exam, joinedAt: int, id: Id): set<Id> {
    set i | i in t && t[i].exam == e && Ahead(t[i].joinedAt, i, joinedAt, id)
  }

  function ActiveAheadIds(t: Table, e: Exam, joinedAt: int, id: Id): set<Id> {
    set i | i in t && t[i].exam == e && t[i].consumedAt.None? && Ahead(t[i].joinedAt, i, joinedAt, id)
  }

  /** Stable schedule ordinal: one more than the memberships of any state ahead of the key. */
  function Ordinal(t: Table, e: Exam, joinedAt: int, id: Id): nat {
    |AheadIds(t, e, joinedAt, id)| + 1
  }

  /** Position shown to the candidate: counts active memberships only. */
  function ActivePosition(t: Table, e: Exam, joinedAt: int, id: Id): nat {
    |ActiveAheadIds(t, e, joinedAt, id)| + 1
  }

  ghost predicate IsAnchor(t: Table, e: Exam, anchor: int) {
    && (exists id :: IsMember(t, e, id) && t[id].joinedAt == anchor)
    && (forall id :: IsMember(t, e, id) ==> anchor <= t[id].joinedAt)
  }

  lemma {:induction false} EarliestExists(t: Table, e: Exam, ids: set<Id>) returns (first: Id)
    requires ids != {} && forall id :: id in ids ==> id in t && t[id].exam == e
    ensures first in ids && forall id :: id in ids ==> t[first].joinedAt <= t[id].joinedAt
    decreases ids
  {
    first :| first in ids;
    if ids != {first} {
      var rest := EarliestExists(t, e, ids - {first});
      if t[rest].joinedAt < t[first].joinedAt {
        first := rest;
      }
    }
  }

  lemma AnchorExists(t: Table, e: Exam, id: Id)
    requires IsMember(t, e, id)
    ensures exists a :: IsAnchor(t, e, a)
  {
    var ids := set i | i in t && t[i].exam == e;
    assert id in ids;
    var first := EarliestExists(t, e, ids);
    assert IsAnchor(t, e, t[first].joinedAt);
  }

  /** Earliest joined_at over all memberships of the exam, consumed ones included. */
  ghost function EarliestJoinedAt(t: Table, e: Exam): (a: Option<int>)
    ensures a.Some? ==> IsAnchor(t, e, a.value)
    ensures a.None? <==> forall id :: !IsMember(t, e, id)
  {
    if exists id :: IsMember(t, e, id) then
      ghost var id :| IsMember(t, e, id);
      AnchorExists(t, e, id);
      var a :| IsAnchor(t, e, a);
      Some(a)
    else
      None
  }

  lemma AnchorUnique(t: Table, e: Exam, a: int)
    requires IsAnchor(t, e, a)
    ensures EarliestJoinedAt(t, e) == Some(a)
  {
  }

  /** The admission predicate for a membership, evaluated on the whole table. */
  ghost predicate EligibleIn(t: Table, p: Policy, id: Id, now: int)
    requires id in t
  {
    Eligible(EarliestJoinedAt(t, t[id].exam), Ordinal(t, t[id].exam, t[id].joinedAt, id), now, p)
  }

  // ----- writes

  /** Insert a fresh membership unless the candidate already has an active one. */
  ghost function Join(t: Table, e: Exam, c: Candidate, joinedAt: int, id: Id): Table {
    if HasActive(t, e, c) then t else t[id := Row(id, e, c, joinedAt, None, None, None)]
  }

  /** Set admitted_at if it is still NULL. */
  function AdmitOnce(t: Table, id: Id, at: int): Table {
    if id in t && t[id].admittedAt.None? then t[id := t[id].(admittedAt := Some(at))] else t
  }

  /** Whether the update of consumeActive touches a row that the check constraints let through. */
  ghost predicate Consumable(t: Table, e: Exam, c: Candidate) {
    FindActive(t, e, c).Some? && FindActive(t, e, c).value.admittedAt.Some?
  }

  ghost function ConsumeActive(t: Table, e: Exam, c: Candidate, at: int, attempt: AttemptId): Table {
    if Consumable(t, e, c) then
      var r := FindActive(t, e, c).value;
      t[r.id := r.(consumedAt := Some(at), consumedAttempt := Some(attempt))]
    else t
  }

  lemma JoinValid(t: Table, e: Exam, c: Candidate, joinedAt: int, id: Id)
    requires ValidTable(t) && id !in t
    ensures ValidTable(Join(t, e, c, joinedAt, id))
    ensures HasActive(Join(t, e, c, joinedAt, id), e, c)
  {
    var t' := Join(t, e, c, joinedAt, id);
    if !HasActive(t, e, c) {
      assert IsActive(t', e, c, id);
      forall e', c', a, b | IsActive(t', e', c', a) && IsActive(t', e', c', b)
        ensures a == b
      {
        if a != id {
          assert IsActive(t, e', c', a);
        }
        if b != id {
          assert IsActive(t, e', c', b);
        }
      }
    }
  }

  /** Two tables hold the same memberships with the same queue keys. */
  ghost predicate SameKeys(t: Table, t': Table) {
    && t.Keys == t'.Keys
    && forall id :: id in t ==>
         && t'[id].id == t[id].id && t'[id].exam == t[id].exam
         && t'[id].candidate == t[id].candidate && t'[id].joinedAt == t[id].joinedAt
  }

  /** Ordinals and the anchor depend on the queue keys alone. */
  lemma ScheduleDependsOnKeys(t: Table, t': Table, e: Exam)
    requires SameKeys(t, t')
    ensures EarliestJoinedAt(t, e) == EarliestJoinedAt(t', e)
    ensures forall joinedAt, id :: Ordinal(t, e, joinedAt, id) == Ordinal(t', e, joinedAt, id)
  {
    forall joinedAt, id
      ensures Ordinal(t, e, joinedAt, id) == Ordinal(t', e, joinedAt, id)
    {
      assert AheadIds(t, e, joinedAt, id) == AheadIds(t', e, joinedAt, id);
    }
    assert forall id :: IsMember(t, e, id) <==> IsMember(t', e, id);
    if EarliestJoinedAt(t, e).Some? {
      var a := EarliestJoinedAt(t, e).value;
      var id :| IsMember(t, e, id) && t[id].joinedAt == a;
      assert IsMember(t', e, id) && t'[id].joinedAt == a;
      assert IsAnchor(t', e, a);
      AnchorUnique(t', e, a);
    }
  }

  lemma AdmitOnceKeeps(t: Table, id: Id, at: int)
    requires ValidTable(t)
    ensures ValidTable(AdmitOnce(t, id, at)) && SameKeys(t, AdmitOnce(t, id, at))
  {
    var t' := AdmitOnce(t, id, at);
    assert forall e, c, i :: IsActive(t', e, c, i) <==> IsActive(t, e, c, i);
  }

  lemma ConsumeActiveKeeps(t: Table, e: Exam, c: Candidate, at: int, attempt: AttemptId)
    requires ValidTable(t)
    ensures ValidTable(ConsumeActive(t, e, c, at, attempt)) && SameKeys(t, ConsumeActive(t, e, c, at, attempt))
  {
    var t' := ConsumeActive(t, e, c, at, attempt);
    assert forall e', c', i :: IsActive(t', e', c', i) ==> IsActive(t, e', c', i);
  }

  /** The new key comes after every membership of the exam. */
  ghost predicate BehindAll(t: Table, e: Exam, joinedAt: int, id: Id) {
    forall i :: IsMember(t, e, i) ==> Ahead(t[i].joinedAt, i, joinedAt, id)
  }

  lemma JoinAheadIds(t: Table, e: Exam, c: Candidate, joinedAt: int, id: Id, e': Exam, i: Id)
    requires ValidTable(t) && id !in t && !HasActive(t, e, c) && IsMember(t, e', i)
    ensures var t' := Join(t, e, c, joinedAt, id);
      AheadIds(t', e', t[i].joinedAt, i) ==
      AheadIds(t, e', t[i].joinedAt, i) + if e == e' && Ahead(joinedAt, id, t[i].joinedAt, i) then {id} else {}
  {
  }

  /**
   * Exactly when a fresh join leaves the schedule alone: every membership keeps its
   * ordinal if and only if the new key is behind them all.
   */
  lemma JoinKeepsOrdinalsIffBehindAll(t: Table, e: Exam, c: Candidate, joinedAt: int, id: Id)
    requires ValidTable(t) && id !in t && !HasActive(t, e, c)
    ensures var t' := Join(t, e, c, joinedAt, id);
      (forall i :: IsMember(t, e, i) ==> Ordinal(t', e, t[i].joinedAt, i) == Ordinal(t, e, t[i].joinedAt, i))
      <==> BehindAll(t, e, joinedAt, id)
  {
    var t' := Join(t, e, c, joinedAt, id);
    forall i | IsMember(t, e, i)
      ensures Ordinal(t', e, t[i].joinedAt, i) == Ordinal(t, e, t[i].joinedAt, i)
         <==> Ahead(t[i].joinedAt, i, joinedAt, id)
    {
      JoinAheadIds(t, e, c, joinedAt, id, e, i);
      AheadTotal(joinedAt, id, t[i].joinedAt, i);
      if Ahead(joinedAt, id, t[i].joinedAt, i) {
        AheadAsymmetric(joinedAt, id, t[i].joinedAt, i);
      }
      assert id !in AheadIds(t, e, t[i].joinedAt, i);
    }
  }

  /** A join behind all keeps every ordinal and, unless it is the first of its exam, the anchor. */
  lemma JoinBehindKeepsSchedule(t: Table, e: Exam, c: Candidate, joinedAt: int, id: Id)
    requires ValidTable(t) && id !in t && (HasActive(t, e, c) || BehindAll(t, e, joinedAt, id))
    ensures var t' := Join(t, e, c, joinedAt, id);
      && (forall i :: i in t ==> i in t' && t'[i] == t[i])
      && (forall e', i :: IsMember(t, e', i) ==>
            && Ordinal(t', e', t[i].joinedAt, i) == Ordinal(t, e', t[i].joinedAt, i)
            && EarliestJoinedAt(t', e') == EarliestJoinedAt(t, e'))
  {
    if !HasActive(t, e, c) {
      var t' := Join(t, e, c, joinedAt, id);
      forall e', i | IsMember(t, e', i)
        ensures Ordinal(t', e', t[i].joinedAt, i) == Ordinal(t, e', t[i].joinedAt, i)
        ensures EarliestJoinedAt(t', e') == EarliestJoinedAt(t, e')
      {
        JoinAheadIds(t, e, c, joinedAt, id, e', i);
        if e == e' {
          AheadAsymmetric(t[i].joinedAt, i, joinedAt, id);
        }
        var a := EarliestJoinedAt(t, e').value;
        var first :| IsMember(t, e', first) && t[first].joinedAt == a;
        assert IsMember(t', e', first);
        assert IsAnchor(t', e', a);
        AnchorUnique(t', e', a);
      }
    }
  }

  // ----- tables over time

  /** A later table keeps every membership, its key, and every timestamp already written. */
  ghost predicate Evolves(t: Table, t': Table) {
    forall id :: id in t ==>
      && id in t'
      && t'[id].exam == t[id].exam && t'[id].candidate == t[id].candidate && t'[id].joinedAt == t[id].joinedAt
      && (t[id].admittedAt.Some? ==> t'[id].admittedAt == t[id].admittedAt)
      && (t[id].consumedAt.Some? ==>
            t'[id].consumedAt == t[id].consumedAt && t'[id].consumedAttempt == t[id].consumedAttempt)
  }

  lemma EvolvesTransitive(a: Table, b: Table, c: Table)
    requires Evolves(a, b) && Evolves(b, c)
    ensures Evolves(a, c)
  {
  }

  lemma JoinEvolves(t: Table, e: Exam, c: Candidate, joinedAt: int, id: Id)
    requires id !in t
    ensures Evolves(t, Join(t, e, c, joinedAt, id))
  {
  }

  function ConsumedIds(t: Table, e: Exam, c: Candidate): set<Id> {
    set id | id in t && t[id].exam == e && t[id].candidate == c && t[id].consumedAt.Some?
  }

  /** Consumed memberships only grow, and by one at least when an active one has gone. */
  lemma ConsumedGrows(t: Table, t': Table, e: Exam, c: Candidate)
    requires Evolves(t, t')
    ensures |ConsumedIds(t', e, c)|
         >= |ConsumedIds(t, e, c)| + if HasActive(t, e, c) && !HasActive(t', e, c) then 1 else 0
  {
    var gone := ConsumedIds(t, e, c);
    if HasActive(t, e, c) && !HasActive(t', e, c) {
      var id :| IsActive(t, e, c, id);
      assert !IsActive(t', e, c, id);
      assert id !in gone;
      SubsetSize(gone + {id}, ConsumedIds(t', e, c));
    } else {
      SubsetSize(gone, ConsumedIds(t', e, c));
    }
  }
}
