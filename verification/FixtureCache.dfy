/**
 * The per-file fixture cache of the ordinary database tests in worker-database mode: one
 * cached opening, a reset before the first use, eviction after a failure and on cleanup.
 * Openings are asynchronous, so their steps interleave with further calls and cleanups.
 */
module FixtureCache {
  import opened Prelude

  datatype Phase = Opening | Resetting | Open | Closing | Failed | Closed

  /** What the slot database and the callers see, oldest first. */
  datatype Event = ResetStarted | ResetFinished | HandedOut

  /** Openings are numbered in the order they begin; `cache` names the one later calls are given. */
  datatype World = World(cache: Option<nat>, resetPerformed: bool, openings: seq<Phase>, log: seq<Event>)

  datatype Label =
    | GetFixture
    | Bootstrapped(opening: nat, ok: bool)
    | ResetEnds(opening: nat, ok: bool)
    | EvictFailed(opening: nat)
    | Cleanup(opening: nat)
    | CloseEnds(opening: nat)

  const FRESH := World(None, false, [], [])

  predicate InPhase(w: World, n: nat, p: Phase) {
    n < |w.openings| && w.openings[n] == p
  }

  function SetPhase(w: World, n: nat, p: Phase): World
    requires n < |w.openings|
  {
    w.(openings := w.openings[n := p])
  }

  function Log(w: World, e: Event): World {
    w.(log := w.log + [e])
  }

  function Next(w: World, l: Label): World {
    match l
    case GetFixture =>
      if w.cache.Some? then w else w.(cache := Some(|w.openings|), openings := w.openings + [Opening])
    case Bootstrapped(n, ok) =>
      if !InPhase(w, n, Opening) then w
      else if !ok then SetPhase(w, n, Failed)
      else if w.resetPerformed then Log(SetPhase(w, n, Open), HandedOut)
      else Log(SetPhase(w, n, Resetting), ResetStarted)
    case ResetEnds(n, ok) =>
      if !InPhase(w, n, Resetting) then w
      else if !ok then SetPhase(w, n, Failed)
      else Log(Log(SetPhase(w, n, Open).(resetPerformed := true), ResetFinished), HandedOut)
    case EvictFailed(n) =>
      if InPhase(w, n, Failed) && w.cache == Some(n) then w.(cache := None) else w
    case Cleanup(n) =>
      if InPhase(w, n, Open) then SetPhase(w, n, Closing).(cache := None)
      else if InPhase(w, n, Closing) || InPhase(w, n, Closed) then w.(cache := None)
      else w
    case CloseEnds(n) =>
      if InPhase(w, n, Closing) then SetPhase(w, n, Closed) else w
  }

  function Exec(w: World, labels: seq<Label>): World
    decreases |labels|
  {
    if labels == [] then w else Exec(Next(w, labels[0]), labels[1..])
  }

  // ----- reset once, before use

  /** Until the reset has been performed, the cached opening is the only one under way and none has been handed out. */
  ghost predicate BeforeReset(w: World) {
    && (forall n :: 0 <= n < |w.openings| ==> w.openings[n] in {Opening, Resetting, Failed})
    && (forall n :: 0 <= n < |w.openings| && w.openings[n] != Failed ==> w.cache == Some(n))
    && (forall i :: 0 <= i < |w.log| ==> w.log[i] == ResetStarted)
  }

  ghost predicate ResetBeforeUse(log: seq<Event>) {
    && (forall i, j :: 0 <= i < j < |log| && log[i].HandedOut? ==> !log[j].ResetStarted?)
    && (forall j :: 0 <= j < |log| && log[j].HandedOut? ==> exists i :: 0 <= i < j && log[i].ResetFinished?)
    && (forall i, j :: 0 <= i < j < |log| && log[i].ResetFinished? ==> !log[j].ResetFinished?)
  }

  ghost predicate Inv(w: World) {
    && (w.cache.Some? ==> w.cache.value < |w.openings|)
    && ResetBeforeUse(w.log)
    && (!w.resetPerformed ==> BeforeReset(w))
    && (w.resetPerformed ==>
          && (forall n :: 0 <= n < |w.openings| ==> w.openings[n] != Resetting)
          && (exists i :: 0 <= i < |w.log| && w.log[i].ResetFinished?))
  }

  lemma HandOutKeepsOrder(log: seq<Event>, i: nat)
    requires ResetBeforeUse(log) && i < |log| && log[i].ResetFinished?
    ensures ResetBeforeUse(log + [HandedOut])
  {
    var after := log + [HandedOut];
    forall j | 0 <= j < |after| && after[j].HandedOut?
      ensures exists k :: 0 <= k < j && after[k].ResetFinished?
    {
      if j < |log| {
        var k :| 0 <= k < j && log[k].ResetFinished?;
        assert after[k].ResetFinished?;
      } else {
        assert after[i].ResetFinished?;
      }
    }
  }

  lemma BootstrappedStep(w: World, n: nat)
    requires Inv(w) && InPhase(w, n, Opening)
    ensures Inv(Next(w, Bootstrapped(n, true)))
  {
    if w.resetPerformed {
      var i :| 0 <= i < |w.log| && w.log[i].ResetFinished?;
      HandOutKeepsOrder(w.log, i);
      assert (w.log + [HandedOut])[i].ResetFinished?;
    }
  }

  lemma ResetStep(w: World, n: nat)
    requires Inv(w) && InPhase(w, n, Resetting)
    ensures Inv(Next(w, ResetEnds(n, true)))
  {
    var log := w.log + [ResetFinished];
    assert log[|w.log|].ResetFinished? && ResetBeforeUse(log);
    HandOutKeepsOrder(log, |w.log|);
    assert (log + [HandedOut])[|w.log|].ResetFinished?;
  }

  lemma FailStep(w: World, n: nat)
    requires Inv(w) && (InPhase(w, n, Opening) || InPhase(w, n, Resetting))
    ensures Inv(SetPhase(w, n, Failed))
  {
  }

  lemma CleanupStep(w: World, n: nat)
    requires Inv(w)
    ensures Inv(Next(w, Cleanup(n))) && Inv(Next(w, CloseEnds(n)))
  {
  }

  lemma StepKeepsInvariant(w: World, l: Label)
    requires Inv(w)
    ensures Inv(Next(w, l))
  {
    if l.Bootstrapped? && InPhase(w, l.opening, Opening) {
      if l.ok {
        BootstrappedStep(w, l.opening);
      } else {
        FailStep(w, l.opening);
      }
    } else if l.ResetEnds? && InPhase(w, l.opening, Resetting) {
      if l.ok {
        ResetStep(w, l.opening);
      } else {
        FailStep(w, l.opening);
      }
    } else if l.Cleanup? || l.CloseEnds? {
      CleanupStep(w, l.opening);
    }
  }

  lemma {:induction false} RunKeepsInvariant(w: World, labels: seq<Label>)
    requires Inv(w)
    ensures Inv(Exec(w, labels))
    decreases |labels|
  {
    if labels != [] {
      StepKeepsInvariant(w, labels[0]);
      RunKeepsInvariant(Next(w, labels[0]), labels[1..]);
    }
  }

  /**
   * Over every run of one test file: no fixture is handed out before a reset has finished,
   * exactly one reset ever finishes before the first use, and from then on no reset starts,
   * so rows a file has written are never truncated under it. Failed openings, repeated
   * calls and cleanups in any order do not change that.
   */
  lemma ResetOnceBeforeFirstUse(labels: seq<Label>)
    ensures ResetBeforeUse(Exec(FRESH, labels).log)
  {
    RunKeepsInvariant(FRESH, labels);
  }

  // ----- failures are evicted

  lemma StepKeepsFailed(w: World, l: Label, n: nat)
    requires InPhase(w, n, Failed)
    ensures InPhase(Next(w, l), n, Failed)
    ensures w.cache != Some(n) || l == EvictFailed(n) ==> Next(w, l).cache != Some(n)
  {
  }

  lemma {:induction false} FailedStaysOut(w: World, labels: seq<Label>, n: nat)
    requires InPhase(w, n, Failed)
    ensures InPhase(Exec(w, labels), n, Failed)
    ensures w.cache != Some(n) || EvictFailed(n) in labels ==> Exec(w, labels).cache != Some(n)
    decreases |labels|
  {
    if labels != [] {
      StepKeepsFailed(w, labels[0], n);
      FailedStaysOut(Next(w, labels[0]), labels[1..], n);
    }
  }

  ghost predicate Usable(p: Phase) {
    p == Opening || p == Resetting || p == Open
  }

  /**
   * A failed opening is not kept: once its rejection has been seen, however calls, cleanups
   * and other openings run before and after, it is never again what later calls are given;
   * and no rejection ever takes a usable opening out of the cache.
   */
  lemma FailureEvictedForGood(before: seq<Label>, after: seq<Label>, n: nat)
    requires InPhase(Exec(FRESH, before), n, Failed) && EvictFailed(n) in after
    ensures var w := Exec(Exec(FRESH, before), after);
      && w.cache != Some(n)
      && (w.cache.Some? ==> w.cache.value < |w.openings|)
      && (w.cache.Some? && Usable(w.openings[w.cache.value]) ==> forall m :: Next(w, EvictFailed(m)) == w)
      && (w.cache.None? ==> InPhase(Next(w, GetFixture), |w.openings|, Opening))
  {
    FailedStaysOut(Exec(FRESH, before), after, n);
    RunKeepsInvariant(FRESH, before);
    RunKeepsInvariant(Exec(FRESH, before), after);
  }

  // ----- a call is served

  lemma ExecTwo(w: World, a: Label, b: Label)
    ensures Exec(w, [a, b]) == Next(Next(w, a), b)
  {
    assert [a, b][1..] == [b] && [b][1..] == [];
    assert Exec(Next(w, a), [b]) == Exec(Next(Next(w, a), b), []);
  }

  lemma ExecThree(w: World, a: Label, b: Label, c: Label)
    ensures Exec(w, [a, b, c]) == Next(Next(Next(w, a), b), c)
  {
    assert [a, b, c][1..] == [b, c];
    ExecTwo(Next(w, a), b, c);
  }

  lemma {:induction false} ExecConcat(w: World, a: seq<Label>, b: seq<Label>)
    ensures Exec(w, a + b) == Exec(Exec(w, a), b)
    decreases |a|
  {
    if a == [] {
      assert a + b == b;
    } else {
      assert (a + b)[1..] == a[1..] + b;
      ExecConcat(Next(w, a[0]), a[1..], b);
    }
  }

  /**
   * Nothing cached, the next call is served: if its opening comes up it is handed out and
   * cached, after a reset exactly when none has been performed yet; and it stays what later
   * calls are given.
   */
  lemma NextCallServed(w: World)
    requires w.cache.None?
    ensures var n := |w.openings|;
      var w' := Exec(w, [GetFixture, Bootstrapped(n, true), ResetEnds(n, true)]);
      && w'.cache == Some(n) && w'.openings == w.openings + [Open] && w'.resetPerformed
      && w'.log == w.log + if w.resetPerformed then [HandedOut] else [ResetStarted, ResetFinished, HandedOut]
  {
    var n := |w.openings|;
    var w1 := Next(w, GetFixture);
    var w2 := Next(w1, Bootstrapped(n, true));
    ExecThree(w, GetFixture, Bootstrapped(n, true), ResetEnds(n, true));
    assert w2.openings == w.openings + [if w.resetPerformed then Open else Resetting];
  }

  /** A call whose opening or reset fails leaves the reset to be done, and the call after it opens anew. */
  lemma FailedCallRetried(w: World, inReset: bool)
    requires w.cache.None? && (inReset ==> !w.resetPerformed)
    ensures var n := |w.openings|;
      var w' := Exec(w, [GetFixture, Bootstrapped(n, inReset), ResetEnds(n, false), EvictFailed(n), GetFixture]);
      && w'.cache == Some(n + 1) && w'.openings == w.openings + [Failed, Opening]
      && w'.resetPerformed == w.resetPerformed
      && w'.log == w.log + if inReset then [ResetStarted] else []
  {
    var n := |w.openings|;
    var first := [GetFixture, Bootstrapped(n, inReset), ResetEnds(n, false)];
    var w2 := Next(Next(w, GetFixture), Bootstrapped(n, inReset));
    var w3 := Next(w2, ResetEnds(n, false));
    ExecThree(w, first[0], first[1], first[2]);
    assert w2.openings == w.openings + [if inReset then Resetting else Failed];
    assert w3.openings == w.openings + [Failed];
    ExecConcat(w, first, [EvictFailed(n), GetFixture]);
    assert first + [EvictFailed(n), GetFixture] ==
      [GetFixture, Bootstrapped(n, inReset), ResetEnds(n, false), EvictFailed(n), GetFixture];
    ExecTwo(w3, EvictFailed(n), GetFixture);
  }

  /** While an opening is cached, calls share it: only its eviction or a cleanup brings about another. */
  lemma {:induction false} CallsShareOpening(w: World, labels: seq<Label>, n: nat)
    requires w.cache == Some(n) && EvictFailed(n) !in labels
    requires forall i :: 0 <= i < |labels| ==> !labels[i].Cleanup?
    ensures Exec(w, labels).cache == Some(n) && |Exec(w, labels).openings| == |w.openings|
    decreases |labels|
  {
    if labels != [] {
      assert labels[0] in labels && !labels[0].Cleanup?;
      CallsShareOpening(Next(w, labels[0]), labels[1..], n);
    }
  }

  /** Cleaning an open fixture up closes it and empties the cache; the ones before it stay as they are. */
  lemma CleanupCloses(w: World, n: nat)
    requires InPhase(w, n, Open)
    ensures var w' := Exec(w, [Cleanup(n), CloseEnds(n)]);
      w' == World(None, w.resetPerformed, w.openings[n := Closed], w.log)
  {
    ExecTwo(w, Cleanup(n), CloseEnds(n));
    assert w.openings[n := Closing][n := Closed] == w.openings[n := Closed];
  }

  // ----- cleanup

  /** Every opening that callers can still use is the one later calls are given. */
  ghost predicate SingleOwner(w: World) {
    && (w.cache.Some? ==> w.cache.value < |w.openings|)
    && forall n :: 0 <= n < |w.openings| && Usable(w.openings[n]) ==> w.cache == Some(n)
  }

  /** A cleanup repeated on a fixture closing or closed while a newer opening is cached and usable. */
  ghost predicate DropsNewer(w: World, l: Label) {
    && l.Cleanup? && (InPhase(w, l.opening, Closing) || InPhase(w, l.opening, Closed))
    && w.cache.Some? && w.cache.value < |w.openings| && Usable(w.openings[w.cache.value])
  }

  /**
   * Cleanup is documented as idempotent. It is, except in exactly one case: every step keeps
   * the single owner if and only if it is not a repeated cleanup under a newer fixture.
   */
  lemma SingleOwnerIffNoStaleCleanup(w: World, l: Label)
    requires SingleOwner(w)
    ensures SingleOwner(Next(w, l)) <==> !DropsNewer(w, l)
  {
    if DropsNewer(w, l) {
      var n := w.cache.value;
      assert Next(w, l).openings[n] == w.openings[n];
    }
  }

  ghost predicate SingleOwnerThroughout(w: World, labels: seq<Label>)
    decreases |labels|
  {
    SingleOwner(w) && (labels != [] ==> SingleOwnerThroughout(Next(w, labels[0]), labels[1..]))
  }

  ghost predicate NoStaleCleanups(w: World, labels: seq<Label>)
    decreases |labels|
  {
    labels != [] ==> !DropsNewer(w, labels[0]) && NoStaleCleanups(Next(w, labels[0]), labels[1..])
  }

  /** Over a run the single owner is kept throughout if and only if no cleanup in it is stale. */
  lemma {:induction false} SingleOwnerThroughoutIff(w: World, labels: seq<Label>)
    requires SingleOwner(w)
    ensures SingleOwnerThroughout(w, labels) <==> NoStaleCleanups(w, labels)
    decreases |labels|
  {
    if labels != [] {
      SingleOwnerIffNoStaleCleanup(w, labels[0]);
      if SingleOwner(Next(w, labels[0])) {
        SingleOwnerThroughoutIff(Next(w, labels[0]), labels[1..]);
      }
    }
  }

  /** Two usable connections at once: open, clean up, open again, clean the first up once more, open a third time. */
  lemma StaleCleanupLeaksConnection()
    ensures var w := Exec(FRESH,
        [GetFixture, Bootstrapped(0, true), ResetEnds(0, true), Cleanup(0),
         GetFixture, Bootstrapped(1, true), Cleanup(0), GetFixture, Bootstrapped(2, true)]);
      InPhase(w, 1, Open) && InPhase(w, 2, Open)
  {
    var w4 := Exec(FRESH, [GetFixture, Bootstrapped(0, true), ResetEnds(0, true), Cleanup(0)]);
    assert w4.cache == None && w4.openings == [Closing] && w4.resetPerformed;
    var w6 := Exec(w4, [GetFixture, Bootstrapped(1, true)]);
    assert w6.cache == Some(1) && w6.openings == [Closing, Open] && w6.resetPerformed;
    var rest := [GetFixture, Bootstrapped(1, true), Cleanup(0), GetFixture, Bootstrapped(2, true)];
    assert Exec(w4, rest).openings == [Closing, Open, Open];
  }

  // ----- connections, the closing ones included

  ghost predicate Connected(p: Phase) {
    Usable(p) || p == Closing
  }

  ghost predicate OneConnection(w: World) {
    && (w.cache.Some? ==> w.cache.value < |w.openings|)
    && forall m, n :: 0 <= m < n < |w.openings| ==> !Connected(w.openings[m]) || !Connected(w.openings[n])
  }

  /** A call that finds the cache empty while a connection is still there. */
  ghost predicate OpensBeside(w: World, l: Label) {
    l.GetFixture? && w.cache.None? && exists n :: 0 <= n < |w.openings| && Connected(w.openings[n])
  }

  /**
   * Cleanup clears the cache before it has closed. A step keeps the file at one connection if
   * and only if it is not a call that comes in between, or after a stale cleanup.
   */
  lemma OneConnectionIffNotBeside(w: World, l: Label)
    requires OneConnection(w)
    ensures OneConnection(Next(w, l)) <==> !OpensBeside(w, l)
  {
    if OpensBeside(w, l) {
      var n :| 0 <= n < |w.openings| && Connected(w.openings[n]);
      var w' := Next(w, l);
      assert Connected(w'.openings[n]) && Connected(w'.openings[|w.openings|]);
    }
  }

  /** Two connections without any stale cleanup: a call between the cleanup and the end of its close. */
  lemma CallDuringCloseOverlaps()
    ensures var labels := [GetFixture, Bootstrapped(0, true), ResetEnds(0, true), Cleanup(0), GetFixture];
      && NoStaleCleanups(FRESH, labels)
      && var w := Exec(FRESH, labels); InPhase(w, 0, Closing) && InPhase(w, 1, Opening)
  {
    var w3 := Exec(FRESH, [GetFixture, Bootstrapped(0, true), ResetEnds(0, true)]);
    assert w3.openings == [Open] && w3.cache == Some(0);
    assert Exec(w3, [Cleanup(0), GetFixture]).openings == [Closing, Opening];
  }
}
