/**
 * Dangerous attempt commands: canonical requests, the replay/conflict classifier, and
 * the receipt protocol (pre-read, insert under the unique key, recovery after a lost
 * race) as a transition system with any number of racing requests.
 */
module AttemptReceipts {
  import opened Prelude
  import opened Text
  import opened JsValues
  import opened CanonicalPayload

  // ----- canonical requests

  datatype CommandType = ForceSubmit | MisconductMark

  datatype Severity = Warning | Serious

  datatype Command = ForceSubmitCommand(reason: Text) | MisconductCommand(severity: Severity, notes: Text)

  datatype RequestError = ValidationError

  const REASON: Text := [114, 101, 97, 115, 111, 110]
  const SEVERITY: Text := [115, 101, 118, 101, 114, 105, 116, 121]
  const NOTES: Text := [110, 111, 116, 101, 115]
  const WARNING: Text := [119, 97, 114, 110, 105, 110, 103]
  const SERIOUS: Text := [115, 101, 114, 105, 111, 117, 115]

  function TypeOf(c: Command): CommandType {
    if c.ForceSubmitCommand? then ForceSubmit else MisconductMark
  }

  function FreeText(c: Command): Text {
    if c.ForceSubmitCommand? then c.reason else c.notes
  }

  function SeverityText(s: Severity): Text {
    if s == Warning then WARNING else SERIOUS
  }

  function CanonicalPayloadOf(c: Command): Value {
    match c
    case ForceSubmitCommand(reason) => Obj([Field(REASON, Str(Trim(reason)))])
    case MisconductCommand(severity, notes) =>
      Obj([Field(SEVERITY, Str(SeverityText(severity))), Field(NOTES, Str(Trim(notes)))])
  }

  function Canonicalize(c: Command): Result<Value, RequestError> {
    if Trim(FreeText(c)) == [] then Err(ValidationError) else Ok(CanonicalPayloadOf(c))
  }

  function WithText(c: Command, t: Text): Command {
    match c
    case ForceSubmitCommand(_) => ForceSubmitCommand(t)
    case MisconductCommand(severity, _) => MisconductCommand(severity, t)
  }

  /** White space around the free text does not change the canonical request, nor whether there is one. */
  lemma CanonicalizeIgnoresPadding(c: Command, front: Text, back: Text)
    requires AllSpace(front) && AllSpace(back)
    ensures Canonicalize(WithText(c, front + FreeText(c) + back)) == Canonicalize(c)
  {
    TrimIgnoresPadding(front, FreeText(c), back);
  }

  /** Canonicalizing the trimmed command again gives the same payload. */
  lemma CanonicalizeIdempotent(c: Command)
    ensures Canonicalize(WithText(c, Trim(FreeText(c)))) == Canonicalize(c)
  {
    TrimIdempotent(FreeText(c));
  }

  lemma CanonicalPayloadShape(c: Command)
    ensures IsJson(CanonicalPayloadOf(c)) && ProtoFree(CanonicalPayloadOf(c))
  {
    assert REASON[0] != PROTO[0] && SEVERITY[0] != PROTO[0] && NOTES[0] != PROTO[0];
    assert SEVERITY[0] != NOTES[0];
  }

  /** Different canonical requests never have equal payloads: type, severity and trimmed text are all recovered. */
  lemma PayloadDeterminesRequest(c: Command, d: Command)
    requires TypeOf(c) == TypeOf(d)
    ensures PayloadsEqual(CanonicalPayloadOf(c), CanonicalPayloadOf(d))
       <==> Trim(FreeText(c)) == Trim(FreeText(d)) && (c.MisconductCommand? ==> c.severity == d.severity)
  {
    var a, b := CanonicalPayloadOf(c), CanonicalPayloadOf(d);
    CanonicalPayloadShape(c);
    CanonicalPayloadShape(d);
    PayloadsEqualIffSameJson(a, b);
    assert SEVERITY[0] != NOTES[0];
    assert WARNING[0] != SERIOUS[0];
    if SameJson(a, b) {
      assert a.fields[0].key == b.fields[0].key;
      if c.MisconductCommand? {
        assert a.fields[1].key == b.fields[1].key != b.fields[0].key;
      }
    }
  }

  // ----- classifier

  datatype ConflictReason = DifferentCommandType | DifferentAttempt | DifferentPayload

  datatype Decision = Replay | Conflict(reason: ConflictReason)

  function ClassifyReplay(
    storedType: CommandType, storedAttempt: string, storedPayload: Value, wantedType: CommandType,
    wantedAttempt: string, wantedPayload: Value
  ): Decision {
    if storedType != wantedType then Conflict(DifferentCommandType)
    else if storedAttempt != wantedAttempt then Conflict(DifferentAttempt)
    else if !PayloadsEqual(storedPayload, wantedPayload) then Conflict(DifferentPayload)
    else Replay
  }

  // ----- what a command does to an attempt

  datatype Status = NotStarted | Queued | InProgress | Disrupted | Submitted | Graded | Voided

  datatype Flag = Flag(flaggedAt: int, flaggedBy: string, notes: Text, severity: Severity)

  datatype Attempt = Attempt(
    status: Status,
    submittedAt: Option<int>,
    gradedAt: Option<int>,
    manualGrading: bool,
    misconduct: Option<Flag>)

  datatype Outcome = Applied | NoChange

  datatype ResultPayload =
    | ForceSubmitResult(before: Status, after: Status, submittedAt: Option<int>, gradedAt: Option<int>, appliedAt: int)
    | MisconductResult(flag: Flag, appliedAt: int)

  /** Frozen into the receipt before the attempt is touched. */
  datatype Plan = Plan(outcome: Outcome, result: ResultPayload)

  /** The planned outcome of a force-submit under the lock; None is an invalid transition. */
  function PlanForceSubmit(a: Attempt, now: int): Option<Plan> {
    match a.status
    case InProgress | Disrupted =>
      var after := if a.manualGrading then Submitted else Graded;
      Some(Plan(Applied,
        ForceSubmitResult(a.status, after, Some(now), if a.manualGrading then None else Some(now), now)))
    case Submitted | Graded =>
      Some(Plan(NoChange, ForceSubmitResult(a.status, a.status, a.submittedAt, a.gradedAt, now)))
    case _ => None
  }

  /** A misconduct mark is allowed on any status and always applies. */
  function PlanCommand(a: Attempt, c: Command, actor: string, now: int): Option<Plan> {
    match c
    case ForceSubmitCommand(_) => PlanForceSubmit(a, now)
    case MisconductCommand(severity, notes) =>
      Some(Plan(Applied, MisconductResult(Flag(now, actor, Trim(notes), severity), now)))
  }

  /** The postcondition of both transactions: the attempt as re-read carries the frozen fact. */
  predicate FactMatches(final: Attempt, stored: ResultPayload) {
    match stored
    case ForceSubmitResult(_, after, submittedAt, gradedAt, _) =>
      final.status == after && final.submittedAt == submittedAt && final.gradedAt == gradedAt
    case MisconductResult(flag, _) => final.misconduct == Some(flag)
  }

  // ----- the protocol

  datatype Key = Key(organization: string, operation: string)

  datatype Request = Request(key: Key, attempt: string, command: Command, actor: string, now: int)

  datatype Receipt = Receipt(
    attempt: string, commandType: CommandType, requestPayload: Value, result: ResultPayload, outcome: Outcome)

  datatype Response =
    | Executed(outcome: Outcome, result: ResultPayload)
    | Replayed(outcome: Outcome, result: ResultPayload)
    | Conflicted(reason: ConflictReason)
    | Invalid
    | Refused
    | RolledBack
    | InvariantFailure

  datatype Proc =
    | Idle
    | Begun(request: Request)
    | LookedUp(request: Request)
    | Collided(request: Request)
    | Done(request: Request, response: Response)

  /** The attempt before and after the transaction that wrote a receipt. */
  datatype Change = Change(before: Attempt, after: Attempt)

  /**
   * `applied` lists the operations whose effect was committed, oldest first; `changes` what
   * each committed transaction did to its attempt.
   */
  datatype World = World(
    attempts: map<(string, string), Attempt>,
    receipts: map<Key, Receipt>,
    procs: map<nat, Proc>,
    applied: seq<Key>,
    changes: map<Key, Change>)

  datatype Label =
    | Submit(pid: nat, request: Request)
    | PreRead(pid: nat)
    | Commit(pid: nat, stored: Value, mutated: Attempt)
    | Fail(pid: nat)
    | Recover(pid: nat)
    | Elsewhere(attempts: map<(string, string), Attempt>)

  function ProcOf(w: World, pid: nat): Proc {
    if pid in w.procs then w.procs[pid] else Idle
  }

  function SetProc(w: World, pid: nat, p: Proc): World {
    w.(procs := w.procs[pid := p])
  }

  /** Replay answers with the stored fact; anything else is a conflict. */
  function Answer(r: Receipt, q: Request): Response {
    match ClassifyReplay(r.commandType, r.attempt, r.requestPayload,
                         TypeOf(q.command), q.attempt, CanonicalPayloadOf(q.command))
    case Replay => Replayed(r.outcome, r.result)
    case Conflict(reason) => Conflicted(reason)
  }

  /**
   * The primary transaction. A missing attempt or an invalid transition is refused before the
   * insert; then the unique key may refuse the insert; then the engine leaves the attempt as
   * `mutated`, whatever that is, unless nothing was to change; and the whole is rolled back
   * when the attempt does not carry the fact frozen into the receipt.
   */
  function NextCommit(w: World, pid: nat, q: Request, stored: Value, mutated: Attempt): World {
    var place := (q.key.organization, q.attempt);
    if place !in w.attempts || PlanCommand(w.attempts[place], q.command, q.actor, q.now).None? then
      SetProc(w, pid, Done(q, Refused))
    else if q.key in w.receipts then SetProc(w, pid, Collided(q))
    else
      var before := w.attempts[place];
      var p := PlanCommand(before, q.command, q.actor, q.now).value;
      var final := if p.outcome == NoChange then before else mutated;
      if !FactMatches(final, p.result) then SetProc(w, pid, Done(q, RolledBack))
      else World(
        w.attempts[place := final],
        w.receipts[q.key := Receipt(q.attempt, TypeOf(q.command), stored, p.result, p.outcome)],
        w.procs[pid := Done(q, Executed(p.outcome, p.result))],
        if p.outcome == Applied then w.applied + [q.key] else w.applied,
        w.changes[q.key := Change(before, final)])
  }

  /** jsonb may reorder the keys of what it stores, and nothing more. */
  ghost predicate StoredFormOf(stored: Value, q: Request) {
    IsJson(stored) && ProtoFree(stored) && SameJson(stored, CanonicalPayloadOf(q.command))
  }

  ghost function Next(w: World, l: Label): World {
    match l
    case Submit(pid, q) =>
      if !ProcOf(w, pid).Idle? then w
      else if Canonicalize(q.command).Err? then SetProc(w, pid, Done(q, Invalid))
      else SetProc(w, pid, Begun(q))
    case PreRead(pid) =>
      var p := ProcOf(w, pid);
      if !p.Begun? then w
      else if p.request.key in w.receipts
      then SetProc(w, pid, Done(p.request, Answer(w.receipts[p.request.key], p.request)))
      else SetProc(w, pid, LookedUp(p.request))
    case Commit(pid, stored, mutated) =>
      var p := ProcOf(w, pid);
      if p.LookedUp? && StoredFormOf(stored, p.request) then NextCommit(w, pid, p.request, stored, mutated) else w
    case Fail(pid) =>
      var p := ProcOf(w, pid);
      if p.LookedUp? then SetProc(w, pid, Done(p.request, Refused)) else w
    case Recover(pid) =>
      var p := ProcOf(w, pid);
      if !p.Collided? then w
      else if p.request.key in w.receipts
      then SetProc(w, pid, Done(p.request, Answer(w.receipts[p.request.key], p.request)))
      else SetProc(w, pid, Done(p.request, InvariantFailure))
    case Elsewhere(attempts) => w.(attempts := attempts)
  }

  ghost function Exec(w: World, labels: seq<Label>): World
    decreases |labels|
  {
    if labels == [] then w else Exec(Next(w, labels[0]), labels[1..])
  }

  // ----- invariant

  /** The stored receipt is the one this request would have written. */
  ghost predicate Matches(r: Receipt, q: Request) {
    r.commandType == TypeOf(q.command) && r.attempt == q.attempt
    && SameJson(r.requestPayload, CanonicalPayloadOf(q.command))
  }

  ghost predicate ReceiptsSound(w: World) {
    forall k :: k in w.receipts ==> IsJson(w.receipts[k].requestPayload) && ProtoFree(w.receipts[k].requestPayload)
  }

  ghost predicate AppliedOnce(w: World) {
    && (forall i, j :: 0 <= i < j < |w.applied| ==> w.applied[i] != w.applied[j])
    && (forall k :: k in w.applied <==> k in w.receipts && w.receipts[k].outcome == Applied)
  }

  ghost predicate ProcSound(receipts: map<Key, Receipt>, p: Proc) {
    match p
    case Idle => true
    case Begun(q) => true
    case LookedUp(q) => true
    case Collided(q) => q.key in receipts
    case Done(q, Executed(outcome, result)) =>
      q.key in receipts && Matches(receipts[q.key], q)
      && receipts[q.key].outcome == outcome && receipts[q.key].result == result
    case Done(q, Replayed(outcome, result)) =>
      q.key in receipts && Matches(receipts[q.key], q)
      && receipts[q.key].outcome == outcome && receipts[q.key].result == result
    case Done(q, Conflicted(reason)) => q.key in receipts && !Matches(receipts[q.key], q)
    case Done(q, InvariantFailure) => false
    case Done(q, _) => true
  }

  /** What a receipt says about its attempt, against what its transaction did to it. */
  ghost predicate Truthful(r: Receipt, c: Change) {
    && FactMatches(c.after, r.result)
    && (r.outcome == NoChange ==> c.after == c.before)
    && (r.result.ForceSubmitResult? ==>
          && r.result.before == c.before.status && r.result.after in {Submitted, Graded}
          && (r.outcome == Applied <==> c.before.status != c.after.status))
    && (r.result.MisconductResult? ==> r.outcome == Applied)
  }

  ghost predicate FactsSound(w: World) {
    w.changes.Keys == w.receipts.Keys && forall k :: k in w.receipts ==> Truthful(w.receipts[k], w.changes[k])
  }

  ghost predicate Inv(w: World) {
    && ReceiptsSound(w)
    && AppliedOnce(w)
    && FactsSound(w)
    && forall pid :: pid in w.procs ==> ProcSound(w.receipts, w.procs[pid])
  }

  /** No receipt is ever changed or removed. */
  ghost predicate Extends(a: map<Key, Receipt>, b: map<Key, Receipt>) {
    forall k :: k in a ==> k in b && b[k] == a[k]
  }

  lemma ClassifierDecidesMatch(r: Receipt, q: Request)
    requires IsJson(r.requestPayload) && ProtoFree(r.requestPayload)
    ensures Answer(r, q) == if Matches(r, q) then Replayed(r.outcome, r.result) else
              Conflicted(if r.commandType != TypeOf(q.command) then DifferentCommandType
                         else if r.attempt != q.attempt then DifferentAttempt else DifferentPayload)
  {
    CanonicalPayloadShape(q.command);
    PayloadsEqualIffSameJson(r.requestPayload, CanonicalPayloadOf(q.command));
  }

  lemma SoundnessOutlives(a: map<Key, Receipt>, b: map<Key, Receipt>, p: Proc)
    requires Extends(a, b) && ProcSound(a, p)
    ensures ProcSound(b, p)
  {
  }

  lemma ProcsStaySound(w: World, receipts: map<Key, Receipt>, pid: nat, p: Proc)
    requires Inv(w) && Extends(w.receipts, receipts) && ProcSound(receipts, p)
    ensures var procs := w.procs[pid := p]; forall i :: i in procs ==> ProcSound(receipts, procs[i])
  {
    forall i | i in w.procs
      ensures ProcSound(receipts, w.procs[i])
    {
      SoundnessOutlives(w.receipts, receipts, w.procs[i]);
    }
  }

  lemma AppliedStaysOnce(w: World, w': World, k: Key, r: Receipt)
    requires AppliedOnce(w) && k !in w.receipts && w'.receipts == w.receipts[k := r]
    requires w'.applied == if r.outcome == Applied then w.applied + [k] else w.applied
    ensures AppliedOnce(w')
  {
    assert k !in w.applied;
  }

  /** A plan whose postcondition holds is told truthfully by its receipt. */
  lemma PlanTruthful(before: Attempt, mutated: Attempt, q: Request, stored: Value)
    requires PlanCommand(before, q.command, q.actor, q.now).Some?
    requires var p := PlanCommand(before, q.command, q.actor, q.now).value;
      FactMatches(if p.outcome == NoChange then before else mutated, p.result)
    ensures var p := PlanCommand(before, q.command, q.actor, q.now).value;
      Truthful(Receipt(q.attempt, TypeOf(q.command), stored, p.result, p.outcome),
               Change(before, if p.outcome == NoChange then before else mutated))
  {
  }

  lemma ProcStep(w: World, pid: nat, p: Proc)
    requires Inv(w) && ProcSound(w.receipts, p)
    ensures Inv(SetProc(w, pid, p))
  {
  }

  /** Committing a truthful receipt under a free key keeps the invariant. */
  lemma ReceiptStep(w: World, w': World, pid: nat, q: Request, r: Receipt, c: Change)
    requires Inv(w) && q.key !in w.receipts && Matches(r, q) && Truthful(r, c)
    requires IsJson(r.requestPayload) && ProtoFree(r.requestPayload)
    requires w'.receipts == w.receipts[q.key := r] && w'.changes == w.changes[q.key := c]
    requires w'.procs == w.procs[pid := Done(q, Executed(r.outcome, r.result))]
    requires w'.applied == if r.outcome == Applied then w.applied + [q.key] else w.applied
    ensures Inv(w') && Extends(w.receipts, w'.receipts)
  {
    AppliedStaysOnce(w, w', q.key, r);
    FactsStaySound(w, w', q.key, r, c);
    ProcsStaySound(w, w'.receipts, pid, Done(q, Executed(r.outcome, r.result)));
  }

  lemma FactsStaySound(w: World, w': World, k: Key, r: Receipt, c: Change)
    requires FactsSound(w) && ReceiptsSound(w) && k !in w.receipts && Truthful(r, c)
    requires IsJson(r.requestPayload) && ProtoFree(r.requestPayload)
    requires w'.receipts == w.receipts[k := r] && w'.changes == w.changes[k := c]
    ensures FactsSound(w') && ReceiptsSound(w') && Extends(w.receipts, w'.receipts)
  {
  }

  lemma CommitStep(w: World, pid: nat, q: Request, stored: Value, mutated: Attempt)
    requires Inv(w) && StoredFormOf(stored, q)
    ensures Inv(NextCommit(w, pid, q, stored, mutated))
          && Extends(w.receipts, NextCommit(w, pid, q, stored, mutated).receipts)
  {
    var place := (q.key.organization, q.attempt);
    if place !in w.attempts || PlanCommand(w.attempts[place], q.command, q.actor, q.now).None? {
      ProcStep(w, pid, Done(q, Refused));
    } else if q.key in w.receipts {
      ProcStep(w, pid, Collided(q));
    } else {
      var before := w.attempts[place];
      var p := PlanCommand(before, q.command, q.actor, q.now).value;
      var final := if p.outcome == NoChange then before else mutated;
      if FactMatches(final, p.result) {
        var r := Receipt(q.attempt, TypeOf(q.command), stored, p.result, p.outcome);
        PlanTruthful(before, mutated, q, stored);
        ReceiptStep(w, NextCommit(w, pid, q, stored, mutated), pid, q, r, Change(before, final));
      } else {
        ProcStep(w, pid, Done(q, RolledBack));
      }
    }
  }

  /** Looking at the receipt of a taken key ends the request with the classifier's answer. */
  lemma AnswerStep(w: World, pid: nat, q: Request)
    requires Inv(w) && q.key in w.receipts
    ensures Inv(SetProc(w, pid, Done(q, Answer(w.receipts[q.key], q))))
  {
    ClassifierDecidesMatch(w.receipts[q.key], q);
    ProcStep(w, pid, Done(q, Answer(w.receipts[q.key], q)));
  }

  lemma PreReadStep(w: World, pid: nat)
    requires Inv(w)
    ensures Inv(Next(w, PreRead(pid))) && Next(w, PreRead(pid)).receipts == w.receipts
  {
    if ProcOf(w, pid).Begun? {
      var q := ProcOf(w, pid).request;
      if q.key in w.receipts {
        AnswerStep(w, pid, q);
      } else {
        ProcStep(w, pid, LookedUp(q));
      }
    }
  }

  lemma RecoverStep(w: World, pid: nat)
    requires Inv(w)
    ensures Inv(Next(w, Recover(pid))) && Next(w, Recover(pid)).receipts == w.receipts
  {
    if ProcOf(w, pid).Collided? {
      assert ProcSound(w.receipts, w.procs[pid]);
      AnswerStep(w, pid, ProcOf(w, pid).request);
    }
  }

  lemma SubmitStep(w: World, pid: nat, q: Request)
    requires Inv(w)
    ensures Inv(Next(w, Submit(pid, q))) && Next(w, Submit(pid, q)).receipts == w.receipts
  {
    if Canonicalize(q.command).Err? {
      ProcStep(w, pid, Done(q, Invalid));
    } else {
      ProcStep(w, pid, Begun(q));
    }
  }

  lemma StepKeepsInvariant(w: World, l: Label)
    requires Inv(w)
    ensures Inv(Next(w, l)) && Extends(w.receipts, Next(w, l).receipts)
  {
    match l
    case Submit(pid, q) => SubmitStep(w, pid, q);
    case Commit(pid, stored, mutated) =>
      if ProcOf(w, pid).LookedUp? && StoredFormOf(stored, ProcOf(w, pid).request) {
        CommitStep(w, pid, ProcOf(w, pid).request, stored, mutated);
      }
    case PreRead(pid) => PreReadStep(w, pid);
    case Fail(pid) =>
      if ProcOf(w, pid).LookedUp? {
        ProcStep(w, pid, Done(ProcOf(w, pid).request, Refused));
      }
    case Recover(pid) => RecoverStep(w, pid);
    case Elsewhere(_) =>
  }

  lemma {:induction false} RunKeepsInvariant(w: World, labels: seq<Label>)
    requires Inv(w)
    ensures Inv(Exec(w, labels)) && Extends(w.receipts, Exec(w, labels).receipts)
    decreases |labels|
  {
    if labels != [] {
      StepKeepsInvariant(w, labels[0]);
      RunKeepsInvariant(Next(w, labels[0]), labels[1..]);
    }
  }

  ghost predicate Reachable(w: World) {
    exists attempts, labels :: w == Exec(World(attempts, map[], map[], [], map[]), labels)
  }

  lemma ReachableInvariant(w: World)
    requires Reachable(w)
    ensures Inv(w)
  {
    var attempts, labels :| w == Exec(World(attempts, map[], map[], [], map[]), labels);
    RunKeepsInvariant(World(attempts, map[], map[], [], map[]), labels);
  }

  // ----- main results

  /** Receipts never change, and each operation's effect is applied at most once, whoever races. */
  lemma ReceiptsImmutableEffectsOnce(w: World, labels: seq<Label>)
    requires Reachable(w)
    ensures forall k :: k in w.receipts ==>
      k in Exec(w, labels).receipts && Exec(w, labels).receipts[k] == w.receipts[k]
    ensures forall i, j :: 0 <= i < j < |w.applied| ==> w.applied[i] != w.applied[j]
    ensures forall k :: k in w.applied <==> k in w.receipts && w.receipts[k].outcome == Applied
  {
    ReachableInvariant(w);
    RunKeepsInvariant(w, labels);
  }

  lemma {:induction false} ExecSnoc(w: World, labels: seq<Label>, l: Label)
    ensures Exec(w, labels + [l]) == Next(Exec(w, labels), l)
    decreases |labels|
  {
    if labels == [] {
      assert [] + [l] == [l];
      assert Exec(w, [l]) == Exec(Next(w, l), []);
    } else {
      assert (labels + [l])[1..] == labels[1..] + [l];
      ExecSnoc(Next(w, labels[0]), labels[1..], l);
    }
  }

  /**
   * What a step records as the attempt after a commit is what it leaves in the attempts table;
   * everything else writes no change.
   */
  lemma ChangesAreCommitted(w: World, l: Label, k: Key)
    requires k !in w.changes && k in Next(w, l).changes
    ensures l.Commit? && ProcOf(w, l.pid).LookedUp? && ProcOf(w, l.pid).request.key == k
    ensures var place := (k.organization, ProcOf(w, l.pid).request.attempt);
      && k in Next(w, l).receipts && Next(w, l).receipts[k].attempt == place.1
      && place in w.attempts && w.attempts[place] == Next(w, l).changes[k].before
      && Next(w, l).attempts == w.attempts[place := Next(w, l).changes[k].after]
  {
  }

  /** A force-submit of a running attempt: submitted while it needs manual grading, graded at once otherwise. */
  ghost predicate TellsSubmission(r: Receipt, q: Request, before: Attempt) {
    && before.status in {InProgress, Disrupted} && r.outcome == Applied
    && r.result == ForceSubmitResult(
         before.status, if before.manualGrading then Submitted else Graded, Some(q.now),
         if before.manualGrading then None else Some(q.now), q.now)
  }

  /** A force-submit of a finished attempt: its own status and timestamps, at the request's instant. */
  ghost predicate TellsNoChange(r: Receipt, q: Request, before: Attempt) {
    && before.status in {Submitted, Graded} && r.outcome == NoChange
    && r.result == ForceSubmitResult(before.status, before.status, before.submittedAt, before.gradedAt, q.now)
  }

  /** A mark: the request's actor, severity, trimmed notes and instant. */
  ghost predicate TellsMark(r: Receipt, q: Request) {
    && q.command.MisconductCommand? && r.outcome == Applied
    && r.result == MisconductResult(Flag(q.now, q.actor, Trim(q.command.notes), q.command.severity), q.now)
  }

  /** The receipt says what the request did to the attempt as it found it. */
  ghost predicate Tells(r: Receipt, q: Request, before: Attempt) {
    && r.attempt == q.attempt && (r.commandType == ForceSubmit <==> q.command.ForceSubmitCommand?)
    && if q.command.ForceSubmitCommand? then TellsSubmission(r, q, before) || TellsNoChange(r, q, before)
       else TellsMark(r, q)
  }

  /** At step i of the run a request committed the receipt of `k`, which tells what that step did to its attempt. */
  ghost predicate CommittedAt(start: World, labels: seq<Label>, i: nat, k: Key, r: Receipt)
    requires i < |labels|
  {
    var w, w' := Exec(start, labels[..i]), Exec(start, labels[..i + 1]);
    var place := (k.organization, r.attempt);
    && k !in w.receipts && k in w'.receipts && w'.receipts[k] == r
    && place in w.attempts && place in w'.attempts
    && w'.attempts == w.attempts[place := w'.attempts[place]]
    && Truthful(r, Change(w.attempts[place], w'.attempts[place]))
    && labels[i].Commit? && ProcOf(w, labels[i].pid).LookedUp?
    && ProcOf(w, labels[i].pid).request.key == k && Tells(r, ProcOf(w, labels[i].pid).request, w.attempts[place])
  }

  lemma PlanTells(before: Attempt, q: Request, stored: Value)
    requires PlanCommand(before, q.command, q.actor, q.now).Some?
    ensures var p := PlanCommand(before, q.command, q.actor, q.now).value;
      Tells(Receipt(q.attempt, TypeOf(q.command), stored, p.result, p.outcome), q, before)
  {
  }

  lemma CommitTells(w: World, l: Label, k: Key)
    requires k !in w.receipts && k in Next(w, l).receipts
    ensures l.Commit? && ProcOf(w, l.pid).LookedUp? && ProcOf(w, l.pid).request.key == k
    ensures var q := ProcOf(w, l.pid).request;
      var place := (k.organization, q.attempt);
      place in w.attempts && Tells(Next(w, l).receipts[k], q, w.attempts[place])
  {
    assert l.Commit? && ProcOf(w, l.pid).LookedUp?;
    var q := ProcOf(w, l.pid).request;
    var place := (q.key.organization, q.attempt);
    if place in w.attempts && PlanCommand(w.attempts[place], q.command, q.actor, q.now).Some? {
      PlanTells(w.attempts[place], q, l.stored);
    }
  }

  lemma FreshReceiptCommitted(start: World, labels: seq<Label>, l: Label, k: Key)
    requires Inv(Exec(start, labels)) && k !in Exec(start, labels).receipts && k in Exec(start, labels + [l]).receipts
    ensures CommittedAt(start, labels + [l], |labels|, k, Exec(start, labels + [l]).receipts[k])
  {
    var w := Exec(start, labels);
    ExecSnoc(start, labels, l);
    StepKeepsInvariant(w, l);
    ChangesAreCommitted(w, l, k);
    CommitTells(w, l, k);
    assert (labels + [l])[..|labels|] == labels && (labels + [l])[..|labels| + 1] == labels + [l];
  }

  lemma CommittedEarlier(start: World, labels: seq<Label>, l: Label, i: nat, k: Key, r: Receipt)
    requires i < |labels| && CommittedAt(start, labels, i, k, r)
    ensures CommittedAt(start, labels + [l], i, k, r)
  {
    assert (labels + [l])[..i] == labels[..i] && (labels + [l])[..i + 1] == labels[..i + 1];
  }

  /**
   * Receipts never lie: whatever the engine makes of an attempt and whoever races, every
   * receipt of every run was committed at one step of it by one request, carries the fact its
   * attempt had after that step, names the status it had before, and says applied exactly when
   * the status moved; a no_change receipt left its attempt alone, and no other attempt was
   * touched. What it says is what that request asked of the attempt as it found it: submitted
   * for manual grading or graded, unchanged with its own timestamps, or marked.
   */
  lemma {:induction false} ReceiptsRecordCommittedFacts(start: World, labels: seq<Label>, k: Key) returns (i: nat)
    requires Inv(start) && start.receipts == map[] && k in Exec(start, labels).receipts
    ensures i < |labels| && CommittedAt(start, labels, i, k, Exec(start, labels).receipts[k])
    decreases |labels|
  {
    var n := |labels| - 1;
    if n < 0 {
      assert false;
    }
    var front := labels[..n];
    assert labels == front + [labels[n]];
    ExecSnoc(start, front, labels[n]);
    RunKeepsInvariant(start, front);
    StepKeepsInvariant(Exec(start, front), labels[n]);
    if k in Exec(start, front).receipts {
      i := ReceiptsRecordCommittedFacts(start, front, k);
      CommittedEarlier(start, front, labels[n], i, k, Exec(start, labels).receipts[k]);
    } else {
      FreshReceiptCommitted(start, front, labels[n], k);
      i := n;
    }
  }

  /** The attempt's states in which a command can be carried out. */
  ghost predicate CanCarryOut(c: Command, a: Attempt) {
    c.ForceSubmitCommand? ==> a.status in {InProgress, Disrupted, Submitted, Graded}
  }

  /** The engine leaves the attempt as the request demands. */
  ghost predicate CarriedOut(q: Request, before: Attempt, mutated: Attempt) {
    if q.command.MisconductCommand? then
      mutated.misconduct == Some(Flag(q.now, q.actor, Trim(q.command.notes), q.command.severity))
    else
      before.status in {InProgress, Disrupted} ==>
        && mutated.status == (if before.manualGrading then Submitted else Graded)
        && mutated.submittedAt == Some(q.now)
        && mutated.gradedAt == (if before.manualGrading then None else Some(q.now))
  }

  /**
   * A first request goes through: under a free key, on an attempt in a state it can be carried
   * out in, and with the engine leaving the attempt as demanded, it ends executed with a new
   * receipt that tells what it did, and the attempt is as the engine left it, or untouched
   * when there was nothing to do.
   */
  lemma FirstRequestExecutes(w: World, pid: nat, q: Request, stored: Value, mutated: Attempt)
    requires ProcOf(w, pid).Idle? && Canonicalize(q.command).Ok? && q.key !in w.receipts && StoredFormOf(stored, q)
    requires var place := (q.key.organization, q.attempt);
      place in w.attempts && CanCarryOut(q.command, w.attempts[place]) && CarriedOut(q, w.attempts[place], mutated)
    ensures var w' := Next(Next(Next(w, Submit(pid, q)), PreRead(pid)), Commit(pid, stored, mutated));
      var place := (q.key.organization, q.attempt);
      && q.key in w'.receipts
      && var r := w'.receipts[q.key];
         && w'.receipts == w.receipts[q.key := r] && r.requestPayload == stored
         && Tells(r, q, w.attempts[place])
         && ProcOf(w', pid) == Done(q, Executed(r.outcome, r.result))
         && w'.attempts == w.attempts[place := if r.outcome == NoChange then w.attempts[place] else mutated]
         && w'.applied == if r.outcome == Applied then w.applied + [q.key] else w.applied
  {
    var w1 := Next(w, Submit(pid, q));
    assert w1 == SetProc(w, pid, Begun(q));
    var w2 := Next(w1, PreRead(pid));
    assert w2 == SetProc(w1, pid, LookedUp(q));
  }

  /** White space alone is no reason and no note; anything else is accepted. */
  lemma BlankRefusedIff(c: Command)
    ensures Canonicalize(c).Err? <==> AllSpace(FreeText(c))
  {
    if AllSpace(FreeText(c)) {
      AllSpaceTrimsAway(FreeText(c));
    } else {
      var _, _ := TrimShape(FreeText(c));
    }
  }

  /** The payload of a padded text, member by member. */
  lemma PayloadText(c: Command, front: Text, t: Text, back: Text)
    requires AllSpace(front) && AllSpace(back) && Trimmed(t) && FreeText(c) == front + t + back
    ensures CanonicalPayloadOf(c) ==
      match c
      case ForceSubmitCommand(_) => Obj([Field(Lit("reason"), Str(t))])
      case MisconductCommand(Warning, _) =>
        Obj([Field(Lit("severity"), Str(Lit("warning"))), Field(Lit("notes"), Str(t))])
      case MisconductCommand(Serious, _) =>
        Obj([Field(Lit("severity"), Str(Lit("serious"))), Field(Lit("notes"), Str(t))])
  {
    TrimIgnoresPadding(front, t, back);
    TrimOfTrimmed(t);
    assert REASON == Lit("reason") && SEVERITY == Lit("severity") && NOTES == Lit("notes");
    assert WARNING == Lit("warning") && SERIOUS == Lit("serious");
  }

  /** A blank request ends invalid and writes nothing. */
  lemma BlankRequestWritesNothing(w: World, pid: nat, q: Request)
    requires ProcOf(w, pid).Idle? && AllSpace(FreeText(q.command))
    ensures Next(w, Submit(pid, q)) == SetProc(w, pid, Done(q, Invalid))
  {
    BlankRefusedIff(q.command);
  }

  ghost predicate Succeeded(p: Proc) {
    p.Done? && (p.response.Executed? || p.response.Replayed?)
  }

  /** All successful answers to one operation carry the same fact and belong to the same canonical request. */
  lemma AnswersAgree(w: World, a: nat, b: nat)
    requires Reachable(w) && Succeeded(ProcOf(w, a)) && Succeeded(ProcOf(w, b))
    requires ProcOf(w, a).request.key == ProcOf(w, b).request.key
    ensures var p, q := ProcOf(w, a), ProcOf(w, b);
      && p.response.outcome == q.response.outcome && p.response.result == q.response.result
      && SameCommand(p.request, q.request)
  {
    ReachableInvariant(w);
    var p, q := ProcOf(w, a), ProcOf(w, b);
    assert ProcSound(w.receipts, w.procs[a]) && ProcSound(w.receipts, w.procs[b]);
    MatchIsSameCommand(w.receipts[p.request.key], p.request, q.request);
  }

  /**
   * A finished request that lost or conflicted did so against a committed receipt; recovery
   * always finds the winner.
   */
  lemma FinishedRequestsAccounted(w: World, pid: nat)
    requires Reachable(w) && ProcOf(w, pid).Done?
    ensures var p := ProcOf(w, pid);
      && !p.response.InvariantFailure?
      && (Succeeded(p) ==> p.request.key in w.receipts && Matches(w.receipts[p.request.key], p.request))
      && (p.response.Conflicted? ==> p.request.key in w.receipts && !Matches(w.receipts[p.request.key], p.request))
  {
    ReachableInvariant(w);
    assert ProcSound(w.receipts, w.procs[pid]);
  }

  /**
   * Once a request has succeeded, any later retry of the same operation that means the
   * same command on the same attempt, however padded, replays the original fact verbatim;
   * any other use of the operation id is a conflict. Neither writes anything.
   */
  lemma RetryReplaysOrConflicts(w: World, pid: nat, retry: nat, q: Request)
    requires Reachable(w) && Succeeded(ProcOf(w, pid)) && ProcOf(w, retry).Idle?
    requires q.key == ProcOf(w, pid).request.key && Canonicalize(q.command).Ok?
    ensures var w' := Exec(w, [Submit(retry, q), PreRead(retry)]);
      var p := ProcOf(w, pid);
      && w'.receipts == w.receipts && w'.applied == w.applied && w'.attempts == w.attempts
      && (ProcOf(w', retry) == Done(q, Replayed(p.response.outcome, p.response.result))
          <==> SameCommand(p.request, q))
      && (!SameCommand(p.request, q) ==> ProcOf(w', retry).Done? && ProcOf(w', retry).response.Conflicted?)
  {
    ReachableInvariant(w);
    var p := ProcOf(w, pid);
    assert ProcSound(w.receipts, w.procs[pid]);
    var r := w.receipts[q.key];
    ClassifierDecidesMatch(r, q);
    var mid := Next(w, Submit(retry, q));
    assert ProcOf(mid, retry) == Begun(q);
    var end := Next(mid, PreRead(retry));
    assert [Submit(retry, q), PreRead(retry)][1..] == [PreRead(retry)];
    assert Exec(mid, [PreRead(retry)]) == Exec(end, []) == end;
    MatchIsSameCommand(r, p.request, q);
  }

  /** The attempt exists and the command can plan for its state. */
  predicate CanPlan(w: World, q: Request) {
    var place := (q.key.organization, q.attempt);
    place in w.attempts && PlanCommand(w.attempts[place], q.command, q.actor, q.now).Some?
  }

  /**
   * A duplicate that passed its pre-read before the winner committed: with the operation
   * taken, it ends in the classifier's answer if and only if its attempt still exists in a
   * state the command can plan for; otherwise it is refused. The answer is the original fact
   * exactly for the same command. It writes nothing.
   */
  lemma RacingDuplicateAnsweredIff(w: World, pid: nat, q: Request, stored: Value, mutated: Attempt)
    requires Reachable(w) && ProcOf(w, pid) == LookedUp(q) && q.key in w.receipts && StoredFormOf(stored, q)
    ensures var w' := Next(Next(w, Commit(pid, stored, mutated)), Recover(pid));
      var r := w.receipts[q.key];
      && w'.receipts == w.receipts && w'.applied == w.applied && w'.attempts == w.attempts
      && ProcOf(w', pid) == Done(q, if CanPlan(w, q) then Answer(r, q) else Refused)
      && (Answer(r, q) == Replayed(r.outcome, r.result) <==> Matches(r, q))
  {
    var r := w.receipts[q.key];
    assert Answer(r, q) == Replayed(r.outcome, r.result) <==> Matches(r, q) by {
      ReachableInvariant(w);
      ClassifierDecidesMatch(r, q);
    }
    assert Next(w, Commit(pid, stored, mutated))
        == SetProc(w, pid, if CanPlan(w, q) then Collided(q) else Done(q, Refused));
  }

  ghost predicate SameCommand(p: Request, q: Request) {
    && p.attempt == q.attempt && TypeOf(p.command) == TypeOf(q.command)
    && Trim(FreeText(p.command)) == Trim(FreeText(q.command))
    && (p.command.MisconductCommand? ==> p.command.severity == q.command.severity)
  }

  lemma MatchIsSameCommand(r: Receipt, p: Request, q: Request)
    requires IsJson(r.requestPayload) && ProtoFree(r.requestPayload) && Matches(r, p)
    ensures Matches(r, q) <==> SameCommand(p, q)
  {
    CanonicalPayloadShape(p.command);
    CanonicalPayloadShape(q.command);
    PayloadsEqualIffSameJson(r.requestPayload, CanonicalPayloadOf(p.command));
    PayloadsEqualIffSameJson(r.requestPayload, CanonicalPayloadOf(q.command));
    if TypeOf(p.command) == TypeOf(q.command) {
      PayloadDeterminesRequest(p.command, q.command);
    }
  }
}
