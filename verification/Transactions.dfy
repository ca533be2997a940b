/** The cause-chain search for a PostgreSQL error code, and the retried transaction built on it. */
module Transactions {
  import opened Prelude
  import opened Text

  /** A thrown value, or the value of a `cause` property. Functions count as `Plain`: they are not of type "object". */
  datatype Thrown = Falsy | Plain(id: nat) | Object(ref: nat)

  /** What the search reads of an object; a `code` that is not a string is `None`. */
  datatype ErrorObject = ErrorObject(code: Option<Text>, cause: Option<Thrown>)

  /** The objects by reference, so that chains may be shared or cyclic. A missing reference has neither property. */
  type Heap = map<nat, ErrorObject>

  predicate Carries(heap: Heap, t: Thrown, code: Text) {
    t.Object? && t.ref in heap && heap[t.ref].code == Some(code)
  }

  /** One step along the chain; the chain has ended once it reaches a value without `cause`. */
  function Cause(heap: Heap, t: Thrown): (r: Thrown) {
    if t.Object? && t.ref in heap && heap[t.ref].cause.Some? then heap[t.ref].cause.value else Falsy
  }

  /** The k-th link of the unbounded chain that starts at `t`. */
  function Link(heap: Heap, t: Thrown, k: nat): (r: Thrown) {
    if k == 0 then t else Cause(heap, Link(heap, t, k - 1))
  }

  ghost predicate ReachesCode(heap: Heap, t: Thrown, code: Text) {
    exists k: nat :: Carries(heap, Link(heap, t, k), code)
  }

  lemma {:induction false} FalsyEndsChain(heap: Heap, t: Thrown, k: nat, n: nat)
    requires k <= n && Link(heap, t, k) == Falsy
    ensures Link(heap, t, n) == Falsy
    decreases n
  {
    if k < n {
      FalsyEndsChain(heap, t, k, n - 1);
    }
  }

  /** Equal links have equal futures. */
  lemma {:induction false} LinksShift(heap: Heap, t: Thrown, j: nat, k: nat, d: nat)
    requires Link(heap, t, j) == Link(heap, t, k)
    ensures Link(heap, t, j + d) == Link(heap, t, k + d)
    decreases d
  {
    if d > 0 {
      LinksShift(heap, t, j, k, d - 1);
    }
  }

  /** A chain that returns to an earlier link stays among the links before the return. */
  lemma {:induction false} CycleAddsNothing(heap: Heap, t: Thrown, j: nat, k: nat, n: nat) returns (i: nat)
    requires j < k && Link(heap, t, j) == Link(heap, t, k)
    ensures i < k && Link(heap, t, i) == Link(heap, t, n)
    decreases n
  {
    if n < k {
      i := n;
    } else {
      LinksShift(heap, t, j, k, n - k);
      i := CycleAddsNothing(heap, t, j, k, j + (n - k));
    }
  }

  /** The references the search has not followed yet. */
  ghost function Unvisited(heap: Heap, visited: set<Thrown>): (r: set<nat>) {
    set i | i in heap && Object(i) !in visited
  }

  lemma VisitShrinks(heap: Heap, visited: set<Thrown>, t: Thrown)
    requires t.Object? && t.ref in heap && t !in visited
    ensures |Unvisited(heap, visited + {t})| < |Unvisited(heap, visited)|
  {
    assert Unvisited(heap, visited + {t}) == Unvisited(heap, visited) - {t.ref};
  }

  /**
   * Terminates on every heap, cyclic chains included, and finds the code exactly
   * when some link of the chain carries it, however far down.
   */
  method HasPostgresErrorCode(heap: Heap, err: Thrown, code: Text) returns (found: bool)
    ensures found <==> ReachesCode(heap, err, code)
  {
    var current := err;
    var visited: set<Thrown> := {};
    ghost var k: nat := 0;
    while current != Falsy && current !in visited
      invariant current == Link(heap, err, k)
      invariant forall t :: t in visited <==> exists j: nat :: j < k && Link(heap, err, j) == t
      invariant forall t :: t in visited ==> !Carries(heap, t, code)
      decreases |Unvisited(heap, visited)|
    {
      if Carries(heap, current, code) {
        return true;
      }
      if !(current.Object? && current.ref in heap && heap[current.ref].cause.Some?) {
        NothingBeyond(heap, err, code, k + 1, visited + {current});
        return false;
      }
      VisitShrinks(heap, visited, current);
      visited := visited + {current};
      current := Cause(heap, current);
      k := k + 1;
    }
    NothingBeyond(heap, err, code, k, visited);
    return false;
  }

  /** When the chain has ended or returned, the links already visited are all there are. */
  lemma NothingBeyond(heap: Heap, err: Thrown, code: Text, k: nat, visited: set<Thrown>)
    requires forall j: nat :: j < k ==> Link(heap, err, j) in visited
    requires forall t :: t in visited ==> !Carries(heap, t, code)
    requires Link(heap, err, k) == Falsy || exists j: nat :: j < k && Link(heap, err, j) == Link(heap, err, k)
    ensures !ReachesCode(heap, err, code)
  {
    forall n: nat
      ensures !Carries(heap, Link(heap, err, n), code)
    {
      if n >= k {
        if Link(heap, err, k) == Falsy {
          FalsyEndsChain(heap, err, k, n);
        } else {
          var j: nat :| j < k && Link(heap, err, j) == Link(heap, err, k);
          var i := CycleAddsNothing(heap, err, j, k, n);
          assert Link(heap, err, i) in visited;
        }
      }
    }
  }

  const SERIALIZATION_FAILURE: Text := Lit("40001")
  const DEADLOCK_DETECTED: Text := Lit("40P01")

  ghost predicate Retryable(heap: Heap, err: Thrown) {
    ReachesCode(heap, err, SERIALIZATION_FAILURE) || ReachesCode(heap, err, DEADLOCK_DETECTED)
  }

  method IsRetryableError(heap: Heap, err: Thrown) returns (r: bool)
    ensures r <==> Retryable(heap, err)
  {
    r := HasPostgresErrorCode(heap, err, SERIALIZATION_FAILURE);
    if !r {
      r := HasPostgresErrorCode(heap, err, DEADLOCK_DETECTED);
    }
  }

  /** Errors each wrapping the next. */
  ghost predicate Wraps(heap: Heap, chain: seq<nat>) {
    && (forall i :: 0 <= i < |chain| ==> chain[i] in heap)
    && (forall i :: 0 <= i < |chain| - 1 ==> heap[chain[i]].cause == Some(Object(chain[i + 1])))
  }

  lemma {:induction false} ChainLinks(heap: Heap, chain: seq<nat>, i: nat)
    requires Wraps(heap, chain) && i < |chain|
    ensures Link(heap, Object(chain[0]), i) == Object(chain[i])
    decreases i
  {
    if i > 0 {
      ChainLinks(heap, chain, i - 1);
      assert heap[chain[i - 1]].cause == Some(Object(chain[i - 1 + 1]));
    }
  }

  /** However often it is wrapped, an error that carries a code is found; and a retryable one is retried. */
  lemma WrappedCodeReached(heap: Heap, chain: seq<nat>, code: Text)
    requires chain != [] && Wraps(heap, chain) && heap[chain[|chain| - 1]].code == Some(code)
    ensures ReachesCode(heap, Object(chain[0]), code)
    ensures code == Lit("40001") || code == Lit("40P01") ==> Retryable(heap, Object(chain[0]))
  {
    ChainLinks(heap, chain, |chain| - 1);
    assert Carries(heap, Link(heap, Object(chain[0]), |chain| - 1), code);
  }

  /** A chain that ends is retried exactly when one of its errors carries one of the two codes; 23505 is none. */
  lemma EndedChainRetriedIff(heap: Heap, chain: seq<nat>)
    requires chain != [] && Wraps(heap, chain)
    requires var last := heap[chain[|chain| - 1]].cause; last.None? || !last.value.Object?
    ensures Retryable(heap, Object(chain[0])) <==>
      exists i :: 0 <= i < |chain| && heap[chain[i]].code in {Some(Lit("40001")), Some(Lit("40P01"))}
  {
    var n := |chain|;
    ChainLinks(heap, chain, n - 1);
    var past := Link(heap, Object(chain[0]), n);
    assert past == Cause(heap, Object(chain[n - 1])) && !past.Object? && Cause(heap, past) == Falsy;
    forall code, k: nat | Carries(heap, Link(heap, Object(chain[0]), k), code)
      ensures k < n && heap[chain[k]].code == Some(code)
    {
      if k > n {
        assert Link(heap, Object(chain[0]), n + 1) == Falsy;
        FalsyEndsChain(heap, Object(chain[0]), n + 1, k);
      } else if k < n {
        ChainLinks(heap, chain, k);
      }
    }
    forall i | 0 <= i < n && heap[chain[i]].code.Some?
      ensures Carries(heap, Link(heap, Object(chain[0]), i), heap[chain[i]].code.value)
    {
      ChainLinks(heap, chain, i);
    }
  }

  /** A serialization failure under one wrapper without a code of its own is retried; a unique violation is not. */
  lemma WrappedOnce(code: Text)
    requires code == Lit("40001") || code == Lit("23505")
    ensures var heap := map[0 := ErrorObject(None, Some(Object(1))), 1 := ErrorObject(Some(code), None)];
      Retryable(heap, Object(0)) <==> code == Lit("40001")
  {
    var heap := map[0 := ErrorObject(None, Some(Object(1))), 1 := ErrorObject(Some(code), None)];
    EndedChainRetriedIff(heap, [0, 1]);
    assert heap[[0, 1][1]].code == Some(code);
    assert Lit("23505")[0] != Lit("40001")[0] && Lit("23505")[0] != Lit("40P01")[0];
  }

  const MAX_RETRIES: nat := 3

  /** What one run of the body in a transaction ends in: it commits a value, or it aborts with an error. */
  datatype Outcome<T> = Committed(value: T) | Aborted(error: Thrown)

  ghost predicate Transient<T>(heap: Heap, o: Outcome<T>) {
    o.Aborted? && Retryable(heap, o.error)
  }

  /** One of the next four transactions would commit, and every one before it aborts transiently. */
  ghost predicate CommitsInBudget<T>(heap: Heap, outcomes: nat -> Outcome<T>, from: nat) {
    exists n :: from <= n <= from + MAX_RETRIES && outcomes(n).Committed?
             && forall m :: from <= m < n ==> Transient(heap, outcomes(m))
  }

  /** A database whose n-th transaction ends as `outcomes(n)` says. */
  class Database<T> {
    const outcomes: nat -> Outcome<T>
    /** Transactions begun so far. */
    var runs: nat
    /** Values of the transactions that committed, in order. */
    var committed: seq<T>
    /** Pauses between runs, in milliseconds. */
    var pauses: seq<nat>

    constructor (outcomes: nat -> Outcome<T>)
      ensures this.outcomes == outcomes && runs == 0 && committed == [] && pauses == []
    {
      this.outcomes := outcomes;
      runs, committed, pauses := 0, [], [];
    }

    method Transaction() returns (r: Outcome<T>)
      modifies this
      ensures r == outcomes(old(runs)) && runs == old(runs) + 1 && pauses == old(pauses)
      ensures committed == old(committed) + if r.Committed? then [r.value] else []
    {
      r := outcomes(runs);
      runs := runs + 1;
      if r.Committed? {
        committed := committed + [r.value];
      }
    }

    /**
     * One to four runs; all but the last aborted with a retryable error; at most one
     * commits and its value is the answer; an error is thrown only when it is
     * permanent or the fourth in a row.
     */
    method ExecuteInTransaction(heap: Heap) returns (r: Result<T, Thrown>)
      modifies this
      ensures old(runs) < runs <= old(runs) + MAX_RETRIES + 1
      ensures forall n :: old(runs) <= n < runs - 1 ==> Transient(heap, outcomes(n))
      ensures outcomes(runs - 1) == match r case Ok(v) => Committed(v) case Err(e) => Aborted(e)
      ensures committed == old(committed) + if r.Ok? then [r.value] else []
      ensures r.Err? ==> !Retryable(heap, r.error) || runs == old(runs) + MAX_RETRIES + 1
      ensures r.Ok? <==> CommitsInBudget(heap, outcomes, old(runs))
      ensures pauses == old(pauses) + [20, 40, 80][..runs - old(runs) - 1]
    {
      var attempt := 0;
      while attempt <= MAX_RETRIES
        invariant attempt <= MAX_RETRIES && runs == old(runs) + attempt
        invariant committed == old(committed)
        invariant forall n :: old(runs) <= n < runs ==> Transient(heap, outcomes(n))
        invariant pauses == old(pauses) + [20, 40, 80][..if attempt == 0 then 0 else attempt - 1]
        decreases MAX_RETRIES - attempt
      {
        if attempt > 0 {
          assert [20, 40, 80][..attempt] == [20, 40, 80][..attempt - 1] + [20 * Power2(attempt - 1)];
          pauses := pauses + [20 * Power2(attempt - 1)];
        }
        var run := Transaction();
        if run.Committed? {
          return Ok(run.value);
        }
        if attempt == MAX_RETRIES {
          return Err(run.error);
        }
        var again := IsRetryableError(heap, run.error);
        if !again {
          return Err(run.error);
        }
        attempt := attempt + 1;
      }
      assert false;
    }
  }

  function Power2(n: nat): (r: nat) {
    if n == 0 then 1 else 2 * Power2(n - 1)
  }
}
