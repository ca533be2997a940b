/** The operator's view of the queue, derived from the listed rows alone. */
module AdmissionViews {
  import opened Prelude
  import opened AdmissionTable
  import opened Sorting

  datatype ViewItem = ViewItem(
    candidate: Candidate,
    state: AdmissionState,
    position: Option<nat>,
    joinedAt: int,
    admittedAt: Option<int>,
    consumedAt: Option<int>,
    consumedAttempt: Option<AttemptId>)

  ghost predicate UniqueIds(rows: seq<Row>) {
    forall i, j :: 0 <= i < j < |rows| ==> rows[i].id != rows[j].id
  }

  function ActiveRows(rows: seq<Row>): (r: seq<Row>)
    ensures forall x :: x in r <==> x in rows && x.consumedAt.None?
  {
    if rows == [] then []
    else if rows[0].consumedAt.None? then [rows[0]] + ActiveRows(rows[1..])
    else ActiveRows(rows[1..])
  }

  /** Ids of the listed active rows strictly ahead of a key. */
  ghost function ListedAhead(rows: seq<Row>, joinedAt: int, id: Id): set<Id> {
    set r | r in rows && r.consumedAt.None? && Ahead(r.joinedAt, r.id, joinedAt, id) :: r.id
  }

  ghost function ListedPosition(rows: seq<Row>, r: Row): nat {
    |ListedAhead(rows, r.joinedAt, r.id)| + 1
  }

  // ----- sorting by (joined_at, id)

  predicate RowAhead(a: Row, b: Row) {
    Ahead(a.joinedAt, a.id, b.joinedAt, b.id)
  }

  function SortByKey(rows: seq<Row>): seq<Row> {
    Sort(RowAhead, rows)
  }

  ghost predicate StrictlySorted(rows: seq<Row>) {
    forall i, j :: 0 <= i < j < |rows| ==> Ahead(rows[i].joinedAt, rows[i].id, rows[j].joinedAt, rows[j].id)
  }

  lemma SortByKeySorts(rows: seq<Row>)
    requires UniqueIds(rows)
    ensures StrictlySorted(SortByKey(rows)) && |SortByKey(rows)| == |rows|
    ensures forall x :: x in SortByKey(rows) <==> x in rows
  {
    forall a, b, c | RowAhead(a, b) && RowAhead(b, c)
      ensures RowAhead(a, c)
    {
      AheadTransitive(a.joinedAt, a.id, b.joinedAt, b.id, c.joinedAt, c.id);
    }
    forall i, j | 0 <= i < j < |rows|
      ensures RowAhead(rows[i], rows[j]) || RowAhead(rows[j], rows[i])
    {
      AheadTotal(rows[i].joinedAt, rows[i].id, rows[j].joinedAt, rows[j].id);
    }
    SortSorts(RowAhead, rows);
  }

  lemma {:induction false} ActiveRowsUnique(rows: seq<Row>)
    requires UniqueIds(rows)
    ensures UniqueIds(ActiveRows(rows))
    decreases |rows|
  {
    if rows != [] {
      ActiveRowsUnique(rows[1..]);
      var rest := ActiveRows(rows[1..]);
      forall j | 0 <= j < |rest|
        ensures rest[j].id != rows[0].id
      {
        assert rest[j] in rows[1..];
      }
    }
  }

  ghost function IdsBefore(rows: seq<Row>, n: nat): set<Id>
    requires n <= |rows|
  {
    set i | 0 <= i < n :: rows[i].id
  }

  lemma {:induction false} IdsBeforeSize(rows: seq<Row>, n: nat)
    requires n <= |rows| && UniqueIds(rows)
    ensures |IdsBefore(rows, n)| == n
    decreases n
  {
    if n > 0 {
      IdsBeforeSize(rows, n - 1);
      IdsBeforeStep(rows, n - 1);
    }
  }

  /** The sorted active rows, in the way deriveAdmissionViews obtains them. */
  ghost function SortedActive(rows: seq<Row>): seq<Row> {
    SortByKey(ActiveRows(rows))
  }

  lemma SortedActiveUnique(rows: seq<Row>)
    requires UniqueIds(rows)
    ensures var s := SortedActive(rows);
      && StrictlySorted(s) && UniqueIds(s) && |s| == |ActiveRows(rows)|
      && forall x :: x in s <==> x in rows && x.consumedAt.None?
  {
    var s := SortedActive(rows);
    ActiveRowsUnique(rows);
    SortByKeySorts(ActiveRows(rows));
    forall i, j | 0 <= i < j < |s|
      ensures s[i].id != s[j].id
    {
      assert s[i] in s && s[j] in s;
      AheadAsymmetric(s[i].joinedAt, s[i].id, s[j].joinedAt, s[j].id);
      if s[i].id == s[j].id {
        SameIdSameRow(rows, s[i], s[j]);
      }
    }
  }

  /** In the sorted active rows the index of a row is the number of active rows ahead of it. */
  lemma RankIsCountAhead(rows: seq<Row>, k: nat)
    requires UniqueIds(rows) && k < |SortedActive(rows)|
    ensures var s := SortedActive(rows);
      s[k] in rows && s[k].consumedAt.None? && ListedPosition(rows, s[k]) == k + 1
  {
    var s := SortedActive(rows);
    SortedActiveUnique(rows);
    var ahead := ListedAhead(rows, s[k].joinedAt, s[k].id);
    forall id | id in ahead
      ensures id in IdsBefore(s, k)
    {
      var r :| r in rows && r.consumedAt.None? && RowAhead(r, s[k]) && r.id == id;
      assert r in s;
      AheadStandsBefore(s, r, k);
    }
    forall id | id in IdsBefore(s, k)
      ensures id in ahead
    {
      var i :| 0 <= i < k && s[i].id == id;
      assert s[i] in s;
    }
    assert ahead == IdsBefore(s, k);
    IdsBeforeSize(s, k);
    assert s[k] in s;
  }

  lemma AheadStandsBefore(s: seq<Row>, r: Row, k: nat)
    requires StrictlySorted(s) && k < |s| && r in s && RowAhead(r, s[k])
    ensures r.id in IdsBefore(s, k)
  {
    var i :| 0 <= i < |s| && s[i] == r;
    AheadAsymmetric(r.joinedAt, r.id, s[k].joinedAt, s[k].id);
  }

  lemma SameIdSameRow(rows: seq<Row>, a: Row, b: Row)
    requires UniqueIds(rows) && a in rows && b in rows && a.id == b.id
    ensures a == b
  {
    var i :| 0 <= i < |rows| && rows[i] == a;
    var j :| 0 <= j < |rows| && rows[j] == b;
    assert i == j;
  }

  ghost predicate ViewOf(rows: seq<Row>, r: Row, v: ViewItem) {
    && StateShows(v.state, r)
    && v == ViewItem(
         r.candidate, v.state,
         if r.consumedAt.None? then Some(ListedPosition(rows, r)) else None,
         r.joinedAt, r.admittedAt, r.consumedAt, r.consumedAttempt)
  }

  /** The positionOf map: a key for exactly the active rows, bound to the row's rank. */
  method FillPositions(rows: seq<Row>) returns (positionOf: map<Id, nat>)
    requires UniqueIds(rows)
    ensures forall r :: r in rows ==> (r.id in positionOf <==> r.consumedAt.None?)
    ensures forall r :: r in rows && r.consumedAt.None? ==> positionOf[r.id] == ListedPosition(rows, r)
  {
    var sorted := SortByKey(ActiveRows(rows));
    SortedActiveUnique(rows);
    positionOf := map[];
    for k := 0 to |sorted|
      invariant positionOf.Keys == IdsBefore(sorted, k)
      invariant forall j :: 0 <= j < k ==> positionOf[sorted[j].id] == j + 1
    {
      IdsBeforeStep(sorted, k);
      positionOf := positionOf[sorted[k].id := k + 1];
    }
    FilledEverywhere(rows, positionOf);
  }

  lemma IdsBeforeStep(rows: seq<Row>, k: nat)
    requires k < |rows| && UniqueIds(rows)
    ensures rows[k].id !in IdsBefore(rows, k) && IdsBefore(rows, k + 1) == IdsBefore(rows, k) + {rows[k].id}
  {
  }

  ghost predicate Filled(rows: seq<Row>, positionOf: map<Id, nat>) {
    var sorted := SortedActive(rows);
    && positionOf.Keys == IdsBefore(sorted, |sorted|)
    && forall j :: 0 <= j < |sorted| ==> positionOf[sorted[j].id] == j + 1
  }

  lemma FilledEverywhere(rows: seq<Row>, positionOf: map<Id, nat>)
    requires UniqueIds(rows) && Filled(rows, positionOf)
    ensures forall r :: r in rows ==> (r.id in positionOf <==> r.consumedAt.None?)
    ensures forall r :: r in rows && r.consumedAt.None? ==> positionOf[r.id] == ListedPosition(rows, r)
  {
    forall r | r in rows
      ensures r.id in positionOf <==> r.consumedAt.None?
      ensures r.consumedAt.None? ==> positionOf[r.id] == ListedPosition(rows, r)
    {
      FilledAt(rows, positionOf, r);
    }
  }

  lemma FilledAt(rows: seq<Row>, positionOf: map<Id, nat>, r: Row)
    requires UniqueIds(rows) && r in rows && Filled(rows, positionOf)
    ensures r.id in positionOf <==> r.consumedAt.None?
    ensures r.consumedAt.None? ==> positionOf[r.id] == ListedPosition(rows, r)
  {
    SortedActiveUnique(rows);
    var sorted := SortedActive(rows);
    if r.consumedAt.None? {
      assert r in sorted;
      var k :| 0 <= k < |sorted| && sorted[k] == r;
      RankIsCountAhead(rows, k);
    } else {
      ConsumedNotListed(rows, r);
    }
  }

  lemma ConsumedNotListed(rows: seq<Row>, r: Row)
    requires UniqueIds(rows) && r in rows && r.consumedAt.Some?
    ensures var s := SortedActive(rows); r.id !in IdsBefore(s, |s|)
  {
    var s := SortedActive(rows);
    SortedActiveUnique(rows);
    forall k | 0 <= k < |s|
      ensures s[k].id != r.id
    {
      assert s[k] in s;
      if s[k].id == r.id {
        SameIdSameRow(rows, s[k], r);
      }
    }
  }

  /** For rows in any order, each active row gets its rank among the active rows and each consumed row gets none. */
  method DeriveAdmissionViews(rows: seq<Row>) returns (views: seq<ViewItem>)
    requires UniqueIds(rows)
    ensures |views| == |rows|
    ensures forall i :: 0 <= i < |rows| ==> ViewOf(rows, rows[i], views[i])
  {
    var positionOf := FillPositions(rows);
    views := [];
    for i := 0 to |rows|
      invariant |views| == i
      invariant forall j :: 0 <= j < i ==> ViewOf(rows, rows[j], views[j])
    {
      var r := rows[i];
      assert r in rows;
      var position := if r.id in positionOf then Some(positionOf[r.id]) else None;
      views := views + [ViewItem(r.candidate, DeriveAdmissionState(r), position,
                                 r.joinedAt, r.admittedAt, r.consumedAt, r.consumedAttempt)];
    }
  }

  /** The positions given out are exactly 1..n, n the number of active rows. */
  lemma PositionsAreOneToN(rows: seq<Row>, position: nat)
    requires UniqueIds(rows)
    ensures 1 <= position <= |ActiveRows(rows)|
       <==> exists r :: r in rows && r.consumedAt.None? && ListedPosition(rows, r) == position
  {
    var s := SortedActive(rows);
    SortedActiveUnique(rows);
    if 1 <= position <= |s| {
      RankIsCountAhead(rows, position - 1);
    }
    forall r | r in rows && r.consumedAt.None?
      ensures 1 <= ListedPosition(rows, r) <= |s|
    {
      assert r in s;
      var k :| 0 <= k < |s| && s[k] == r;
      RankIsCountAhead(rows, k);
    }
  }

  /** The listing of one exam: every membership once, in any order. */
  ghost predicate Lists(rows: seq<Row>, t: Table, e: Exam) {
    && UniqueIds(rows)
    && forall r :: r in rows <==> r.id in t && t[r.id] == r && r.exam == e
  }

  /** The operator's position of an active membership is the position its candidate is shown. */
  lemma OperatorAgreesWithCandidate(rows: seq<Row>, t: Table, e: Exam, r: Row)
    requires ValidTable(t) && Lists(rows, t, e) && r in rows
    ensures ListedPosition(rows, r) == ActivePosition(t, e, r.joinedAt, r.id)
  {
    var a, b := ListedAhead(rows, r.joinedAt, r.id), ActiveAheadIds(t, e, r.joinedAt, r.id);
    forall id | id in b
      ensures id in a
    {
      assert t[id] in rows;
    }
    assert a == b;
  }
}
