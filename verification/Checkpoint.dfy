/** The human-in-the-loop checkpoint protocol of crp_mcp/checkpoint_service.py.

    What happens between two awaits is one atomic step: creating a record, scheduling its timeout
    tasks (which comes later, after the notifications), an approval, a rejection, and the firing of
    one timeout task. Steps of any number of checkpoints interleave freely; a task may fire at any
    time after it was scheduled. */
module Checkpoint {

  import opened Common

  const WAITING: string := "waiting_for_human"
  const APPROVED: string := "approved"
  const REJECTED: string := "rejected"
  const SYSTEM: string := "system"
  const DEFAULT_MESSAGE: string := "Human approval required before proceeding."

  datatype Rule = Rule(afterSeconds: int, channels: seq<string>, onTimeout: Option<string>)

  datatype Approval = Approval(decision: string, reviewer: string, note: Option<string>, timestamp: string)

  /** Everything that the signature covers. */
  datatype Body = Body(
    id: string,
    trigger: string,
    message: string,
    orgId: Option<string>,
    userId: string,
    status: string,
    statusUrl: string,
    hosted: bool,
    required: int,
    approvals: seq<Approval>,
    escalation: seq<Rule>,
    createdAt: string,
    resolvedAt: Option<string>,
    reviewer: Option<string>,
    reviewerNote: Option<string>)

  datatype Record = Record(body: Body, signature: Option<string>)

  type Signature = s: string | s != "" witness "-"

  /** The HMAC of the canonical JSON under the configured secret; None when no secret is set. */
  type Signer = Option<Body -> Signature>

  function Sign(signer: Signer, body: Body): Record {
    Record(body, if signer.None? then None else Some(signer.value(body)))
  }

  predicate Verifies(signer: Signer, r: Record) {
    signer.None? || r.signature.None? || r.signature.value == "" || signer.value(r.body) == r.signature.value
  }

  // ---------------------------------------------------------------------------------------------
  // The steps on one record

  datatype Request = Request(
    trigger: string,
    message: string,
    orgId: Option<string>,
    userId: string,
    statusUrl: string,
    hosted: bool,
    required: int,
    escalation: seq<Rule>)

  function NewRecord(signer: Signer, id: string, q: Request, now: string): Record {
    Sign(signer, Body(
      id, q.trigger, if q.message == "" then DEFAULT_MESSAGE else q.message, q.orgId, q.userId, WAITING,
      q.statusUrl, q.hosted, Max(1, q.required), [], q.escalation, now, None, None, None))
  }

  function Resolve(
      signer: Signer, r: Record, decision: string, reviewer: string, note: Option<string>, now: string): Record
  {
    Sign(signer, r.body.(status := decision, resolvedAt := Some(now), reviewer := Some(reviewer), reviewerNote := note))
  }

  function AddDecision(r: Record, a: Approval): Record {
    r.(body := r.body.(approvals := r.body.approvals + [a]))
  }

  function CountApproved(approvals: seq<Approval>): nat {
    if approvals == [] then 0
    else
      var n := |approvals| - 1;
      CountApproved(approvals[..n]) + (if approvals[n].decision == APPROVED then 1 else 0)
  }

  function Approve(signer: Signer, r: Record, reviewer: string, note: Option<string>, at: string, now: string): Record {
    var added := AddDecision(r, Approval(APPROVED, reviewer, note, at));
    if CountApproved(added.body.approvals) >= r.body.required then
      Resolve(signer, added, APPROVED, reviewer, note, now)
    else
      added
  }

  function Reject(signer: Signer, r: Record, reviewer: string, note: Option<string>, at: string, now: string): Record {
    Resolve(signer, AddDecision(r, Approval(REJECTED, reviewer, note, at)), REJECTED, reviewer, note, now)
  }

  function Digits(n: nat): string {
    (if n < 10 then "" else Digits(n / 10)) + ["0123456789"[n % 10]]
  }

  function Decimal(n: int): string {
    if n < 0 then "-" + Digits(-n) else Digits(n)
  }

  function Decision(onTimeout: string): string {
    if onTimeout == "reject" then REJECTED else if onTimeout == "approve" then APPROVED else onTimeout
  }

  /** An empty `on_timeout` counts as none. */
  predicate Decides(rule: Rule) {
    rule.onTimeout.Some? && rule.onTimeout.value != ""
  }

  function TimeoutNote(rule: Rule): string {
    "escalation_timeout:" + Decimal(rule.afterSeconds) + "s"
  }

  function TimeOut(signer: Signer, r: Record, rule: Rule, now: string): Record {
    if Decides(rule) then
      Resolve(signer, r, Decision(rule.onTimeout.value), SYSTEM, Some(TimeoutNote(rule)), now)
    else
      r
  }

  // ---------------------------------------------------------------------------------------------
  // The state machine

  datatype Task = Task(id: string, rule: Rule)

  /** `unscheduled` holds the checkpoints whose creator is still notifying review channels. */
  datatype State = State(records: map<string, Record>, unscheduled: set<string>, tasks: seq<Task>)

  datatype Op =
    | Create(id: string, request: Request, now: string)
    | Schedule(id: string)
    | ApproveBy(id: string, reviewer: string, note: Option<string>, at: string, now: string)
    | RejectBy(id: string, reviewer: string, note: Option<string>, at: string, now: string)
    | Fire(task: nat, now: string)

  predicate Waiting(s: State, id: string) {
    id in s.records && s.records[id].body.status == WAITING
  }

  /** The tasks of a checkpoint; rules that would do nothing at once get none. */
  function TasksFor(id: string, rules: seq<Rule>): seq<Task> {
    if rules == [] then []
    else
      var rule := rules[|rules| - 1];
      TasksFor(id, rules[..|rules| - 1]) +
      (if rule.afterSeconds <= 0 && !Decides(rule) && rule.channels == [] then [] else [Task(id, rule)])
  }

  function Step(signer: Signer, s: State, op: Op): State {
    match op
    case Create(id, q, now) =>
      s.(records := s.records[id := NewRecord(signer, id, q, now)], unscheduled := s.unscheduled + {id})
    case Schedule(id) =>
      if id in s.unscheduled && id in s.records then
        s.(unscheduled := s.unscheduled - {id}, tasks := s.tasks + TasksFor(id, s.records[id].body.escalation))
      else s
    case ApproveBy(id, reviewer, note, at, now) =>
      if Waiting(s, id) then
        s.(records := s.records[id := Approve(signer, s.records[id], reviewer, note, at, now)])
      else s
    case RejectBy(id, reviewer, note, at, now) =>
      if Waiting(s, id) then
        s.(records := s.records[id := Reject(signer, s.records[id], reviewer, note, at, now)])
      else s
    case Fire(k, now) =>
      if k < |s.tasks| then
        var task := s.tasks[k];
        var rest := s.(tasks := s.tasks[..k] + s.tasks[k + 1..]);
        if Waiting(s, task.id) then
          rest.(records := s.records[task.id := TimeOut(signer, s.records[task.id], task.rule, now)])
        else rest
      else s
  }

  const INITIAL: State := State(map[], {}, [])

  function Run(signer: Signer, ops: seq<Op>): State {
    if ops == [] then INITIAL else Step(signer, Run(signer, ops[..|ops| - 1]), ops[|ops| - 1])
  }

  /** The one value of `on_timeout` that makes a timeout resolve to waiting again. */
  predicate Harmless(rule: Rule) {
    rule.onTimeout != Some(WAITING)
  }

  /** Checkpoint ids are fresh, and no rule resolves to waiting. */
  predicate Enabled(s: State, op: Op) {
    op.Create? ==> op.id !in s.records && forall rule | rule in op.request.escalation :: Harmless(rule)
  }

  /** Every step is enabled in the state that the ones before it lead to. */
  ghost predicate Legal(signer: Signer, ops: seq<Op>) {
    ops != [] ==>
      var n := |ops| - 1;
      Legal(signer, ops[..n]) && Enabled(Run(signer, ops[..n]), ops[n])
  }

  // ---------------------------------------------------------------------------------------------
  // What every record satisfies in every reachable state

  ghost predicate AllApproved(approvals: seq<Approval>) {
    forall a | a in approvals :: a.decision == APPROVED
  }

  /** Waiting: fewer approvals than required and nothing else; the signature is that of creation. */
  ghost predicate GoodWaiting(signer: Signer, r: Record) {
    && AllApproved(r.body.approvals)
    && |r.body.approvals| < r.body.required
    && r.body.resolvedAt == None && r.body.reviewer == None && r.body.reviewerNote == None
    && r.signature == Sign(signer, r.body.(approvals := [])).signature
  }

  /** What a timeout rule decides: "reject" and "approve" stand for the outcomes, and any other
      non-empty text for itself. */
  ghost predicate RuleDecides(rule: Rule, status: string) {
    rule.onTimeout.Some? &&
    match rule.onTimeout.value
    case "" => false
    case "reject" => status == "rejected"
    case "approve" => status == "approved"
    case other => status == other
  }

  /** The outcome and the note are those of this rule. */
  ghost predicate ByRule(b: Body, rule: Rule) {
    && b.reviewer == Some("system") && RuleDecides(rule, b.status)
    && b.reviewerNote == Some("escalation_timeout:" + Decimal(rule.afterSeconds) + "s")
  }

  /** One of the checkpoint's own rules explains the outcome. */
  ghost predicate BySystem(b: Body) {
    && AllApproved(b.approvals) && |b.approvals| < b.required
    && exists rule | rule in b.escalation :: ByRule(b, rule)
  }

  /** The outcome was set by the reviewer of the last decision, with that reviewer's note. */
  ghost predicate ByLast(b: Body)
    requires b.approvals != []
  {
    var last := b.approvals[|b.approvals| - 1];
    b.reviewer == Some(last.reviewer) && b.reviewerNote == last.note
  }

  ghost predicate ByApprovers(b: Body) {
    && b.status == APPROVED
    && AllApproved(b.approvals) && b.approvals != [] && |b.approvals| == b.required
    && ByLast(b)
  }

  ghost predicate ByRejection(b: Body) {
    && b.status == REJECTED
    && b.approvals != [] && |b.approvals| <= b.required
    && AllApproved(b.approvals[..|b.approvals| - 1])
    && b.approvals[|b.approvals| - 1].decision == REJECTED
    && ByLast(b)
  }

  /** Resolved: by the required number of approvals, by one rejection, or by a timeout; signed as is. */
  ghost predicate GoodResolved(signer: Signer, r: Record) {
    && r.body.resolvedAt.Some?
    && r == Sign(signer, r.body)
    && (BySystem(r.body) || ByApprovers(r.body) || ByRejection(r.body))
  }

  ghost predicate Good(signer: Signer, id: string, r: Record) {
    && r.body.id == id
    && 1 <= r.body.required
    && (forall rule | rule in r.body.escalation :: Harmless(rule))
    && if r.body.status == WAITING then GoodWaiting(signer, r) else GoodResolved(signer, r)
  }

  ghost predicate Invariant(signer: Signer, s: State) {
    && (forall id | id in s.records :: Good(signer, id, s.records[id]))
    && (forall t | t in s.tasks :: t.id in s.records && t.rule in s.records[t.id].body.escalation)
  }

  lemma {:induction false} AllCounted(approvals: seq<Approval>)
    requires AllApproved(approvals)
    ensures CountApproved(approvals) == |approvals|
  {
    if approvals != [] {
      AllCounted(approvals[..|approvals| - 1]);
    }
  }

  lemma ApproveGood(
      signer: Signer, id: string, r: Record, reviewer: string, note: Option<string>, at: string, now: string)
    requires Good(signer, id, r) && r.body.status == WAITING
    ensures Good(signer, id, Approve(signer, r, reviewer, note, at, now))
  {
    AllCounted(r.body.approvals + [Approval(APPROVED, reviewer, note, at)]);
  }

  lemma RejectGood(
      signer: Signer, id: string, r: Record, reviewer: string, note: Option<string>, at: string, now: string)
    requires Good(signer, id, r) && r.body.status == WAITING
    ensures Good(signer, id, Reject(signer, r, reviewer, note, at, now))
  {
    var approvals := Reject(signer, r, reviewer, note, at, now).body.approvals;
    assert approvals[..|approvals| - 1] == r.body.approvals;
  }

  lemma TimeOutGood(signer: Signer, id: string, r: Record, rule: Rule, now: string)
    requires Good(signer, id, r) && r.body.status == WAITING && rule in r.body.escalation
    ensures Good(signer, id, TimeOut(signer, r, rule, now))
  {
  }

  lemma {:induction false} TasksOwned(id: string, rules: seq<Rule>)
    ensures forall t | t in TasksFor(id, rules) :: t.id == id && t.rule in rules
  {
    if rules != [] {
      TasksOwned(id, rules[..|rules| - 1]);
    }
  }

  /** A good new version of a record, on the same rules, keeps the invariant. */
  lemma UpdateKeepsInvariant(signer: Signer, s: State, id: string, r: Record)
    requires id in s.records && r.body.escalation == s.records[id].body.escalation
    ensures Invariant(signer, s) && Good(signer, id, r) ==> Invariant(signer, s.(records := s.records[id := r]))
  {
    hide Good;
  }

  lemma StepKeepsInvariant(signer: Signer, s: State, op: Op)
    requires Invariant(signer, s) && Enabled(s, op)
    ensures Invariant(signer, Step(signer, s, op))
  {
    match op
    case Create(id, q, now) =>
      assert Good(signer, id, NewRecord(signer, id, q, now));
      hide Good;
    case Schedule(id) =>
      if id in s.records {
        TasksOwned(id, s.records[id].body.escalation);
      }
      hide Good;
    case ApproveBy(id, reviewer, note, at, now) =>
      if Waiting(s, id) {
        ApproveGood(signer, id, s.records[id], reviewer, note, at, now);
        UpdateKeepsInvariant(signer, s, id, Approve(signer, s.records[id], reviewer, note, at, now));
      }
      hide Invariant;
    case RejectBy(id, reviewer, note, at, now) =>
      if Waiting(s, id) {
        RejectGood(signer, id, s.records[id], reviewer, note, at, now);
        UpdateKeepsInvariant(signer, s, id, Reject(signer, s.records[id], reviewer, note, at, now));
      }
      hide Invariant;
    case Fire(k, now) =>
      if k < |s.tasks| {
        FireKeepsInvariant(signer, s, k, now);
      }
  }

  lemma FireKeepsInvariant(signer: Signer, s: State, k: nat, now: string)
    requires Invariant(signer, s) && k < |s.tasks|
    ensures Invariant(signer, Step(signer, s, Fire(k, now)))
  {
    var task := s.tasks[k];
    var rest := s.(tasks := s.tasks[..k] + s.tasks[k + 1..]);
    assert task in s.tasks && Invariant(signer, rest);
    if Waiting(s, task.id) {
      TimeOutGood(signer, task.id, s.records[task.id], task.rule, now);
      UpdateKeepsInvariant(signer, rest, task.id, TimeOut(signer, s.records[task.id], task.rule, now));
    }
    hide Invariant;
  }

  lemma {:induction false} LegalPrefix(signer: Signer, ops: seq<Op>, n: nat)
    requires Legal(signer, ops) && n <= |ops|
    ensures Legal(signer, ops[..n])
    decreases |ops|
  {
    if n < |ops| {
      LegalPrefix(signer, ops[..|ops| - 1], n);
      assert ops[..|ops| - 1][..n] == ops[..n];
    } else {
      assert ops[..n] == ops;
    }
  }

  /** The invariant holds after every run. */
  lemma {:induction false} RunInvariant(signer: Signer, ops: seq<Op>)
    requires Legal(signer, ops)
    ensures Invariant(signer, Run(signer, ops))
    decreases |ops|
  {
    if ops != [] {
      var n := |ops| - 1;
      LegalPrefix(signer, ops, n);
      RunInvariant(signer, ops[..n]);
      StepKeepsInvariant(signer, Run(signer, ops[..n]), ops[n]);
    }
  }

  // ---------------------------------------------------------------------------------------------
  // The service

  datatype Reply = Ok(status: string) | NotFound | Already(status: string)

  class CheckpointService {
    const signer: Signer
    var checkpoints: map<string, Record>
    var unscheduled: set<string>
    var activeTasks: seq<Task>

    constructor (signer: Signer)
      ensures this.signer == signer && Abstract() == INITIAL
    {
      this.signer := signer;
      checkpoints, unscheduled, activeTasks := map[], {}, [];
    }

    function Abstract(): State
      reads this
    {
      State(checkpoints, unscheduled, activeTasks)
    }

    method CreateCheckpoint(id: string, q: Request, now: string) returns (record: Record)
      modifies this
      ensures Abstract() == Step(signer, old(Abstract()), Create(id, q, now))
      ensures id in checkpoints && record == checkpoints[id] && Verifies(signer, record)
    {
      record := NewRecord(signer, id, q, now);
      checkpoints := checkpoints[id := record];
      unscheduled := unscheduled + {id};
    }

    method ScheduleEscalation(id: string)
      requires id in unscheduled && id in checkpoints
      modifies this
      ensures Abstract() == Step(signer, old(Abstract()), Schedule(id))
    {
      var rules := checkpoints[id].body.escalation;
      unscheduled := unscheduled - {id};
      for i := 0 to |rules|
        invariant checkpoints == old(checkpoints) && unscheduled == old(unscheduled) - {id}
        invariant activeTasks == old(activeTasks) + TasksFor(id, rules[..i])
      {
        var rule := rules[i];
        assert rules[..i + 1][..i] == rules[..i];
        if rule.afterSeconds <= 0 && !Decides(rule) && rule.channels == [] {
          continue;
        }
        activeTasks := activeTasks + [Task(id, rule)];
      }
      assert rules[..|rules|] == rules;
    }

    method ApproveCheckpoint(id: string, reviewer: string, note: Option<string>, at: string, now: string)
      returns (reply: Reply)
      modifies this
      ensures Abstract() == Step(signer, old(Abstract()), ApproveBy(id, reviewer, note, at, now))
      ensures id !in old(checkpoints) ==> reply == NotFound
      ensures id in old(checkpoints) ==>
                var before := old(checkpoints)[id].body.status;
                if before != "waiting_for_human" then reply == Already(before)
                else id in checkpoints && reply == Ok(checkpoints[id].body.status)
    {
      if id !in checkpoints {
        return NotFound;
      }
      var record := checkpoints[id];
      if record.body.status != WAITING {
        return Already(record.body.status);
      }
      record := AddDecision(record, Approval(APPROVED, reviewer, note, at));
      if CountApproved(record.body.approvals) >= record.body.required {
        record := Resolve(signer, record, APPROVED, reviewer, note, now);
      }
      checkpoints := checkpoints[id := record];
      return Ok(record.body.status);
    }

    method RejectCheckpoint(id: string, reviewer: string, note: Option<string>, at: string, now: string)
      returns (reply: Reply)
      modifies this
      ensures Abstract() == Step(signer, old(Abstract()), RejectBy(id, reviewer, note, at, now))
      ensures id !in old(checkpoints) ==> reply == NotFound
      ensures id in old(checkpoints) ==>
                var before := old(checkpoints)[id].body.status;
                if before != "waiting_for_human" then reply == Already(before)
                else id in checkpoints && reply == Ok(checkpoints[id].body.status)
    {
      if id !in checkpoints {
        return NotFound;
      }
      var record := checkpoints[id];
      if record.body.status != WAITING {
        return Already(record.body.status);
      }
      record := AddDecision(record, Approval(REJECTED, reviewer, note, at));
      record := Resolve(signer, record, REJECTED, reviewer, note, now);
      checkpoints := checkpoints[id := record];
      return Ok(record.body.status);
    }

    method Escalate(k: nat, now: string)
      requires k < |activeTasks|
      modifies this
      ensures Abstract() == Step(signer, old(Abstract()), Fire(k, now))
    {
      var task := activeTasks[k];
      activeTasks := activeTasks[..k] + activeTasks[k + 1..];
      if task.id !in checkpoints || checkpoints[task.id].body.status != WAITING {
        return;
      }
      var current := checkpoints[task.id];
      if Decides(task.rule) {
        current := Resolve(signer, current, Decision(task.rule.onTimeout.value), SYSTEM,
                           Some(TimeoutNote(task.rule)), now);
      }
      checkpoints := checkpoints[task.id := current];
    }
  }
}
