/** What the checkpoint protocol of crp_mcp/checkpoint_service.py guarantees over all runs: outcomes and
    their explanations, signatures, quorums, and finality. */
module CheckpointLaws {

  import opened Common
  import opened Checkpoint

  // ---------------------------------------------------------------------------------------------
  // What the invariant means for a user

  /** An approved checkpoint has exactly the required approvals, or the system approved it; while it
      waits it has fewer, and no decision other than approvals was recorded. Every outcome has one of
      three explanations: the last required approver, the one who rejected, or a rule of its own. */
  lemma {:induction false} ApprovalsCounted(signer: Signer, ops: seq<Op>, id: string)
    requires Legal(signer, ops) && id in Run(signer, ops).records
    ensures var b := Run(signer, ops).records[id].body;
            && (b.status == WAITING ==> AllApproved(b.approvals) && |b.approvals| < b.required)
            && (b.status == APPROVED ==>
                  AllApproved(b.approvals) && (|b.approvals| == b.required || b.reviewer == Some(SYSTEM)))
            && (b.status == REJECTED && b.reviewer != Some(SYSTEM) ==>
                  CountApproved(b.approvals) == |b.approvals| - 1 < b.required)
            && (b.status != WAITING ==> BySystem(b) || ByApprovers(b) || ByRejection(b))
  {
    RunInvariant(signer, ops);
    var b := Run(signer, ops).records[id].body;
    if b.status == REJECTED && b.reviewer != Some(SYSTEM) {
      AllCounted(b.approvals[..|b.approvals| - 1]);
    }
  }

  /** The MAC does not collide on a body with and without its approvals. */
  predicate TellsApprovals(signer: Signer, b: Body) {
    signer.Some? && signer.value(b) == signer.value(b.(approvals := [])) ==> b == b.(approvals := [])
  }

  /** A record verifies exactly when it is resolved or untouched: approvals that do not complete the
      quorum leave the old signature in place. */
  lemma {:induction false} SignatureExact(signer: Signer, ops: seq<Op>, id: string)
    requires Legal(signer, ops) && id in Run(signer, ops).records
    requires TellsApprovals(signer, Run(signer, ops).records[id].body)
    ensures var r := Run(signer, ops).records[id];
            Verifies(signer, r) <==> signer.None? || r.body.status != WAITING || r.body.approvals == []
  {
    RunInvariant(signer, ops);
    var r := Run(signer, ops).records[id];
    assert Good(signer, id, r);
    if r.body.approvals == [] {
      assert r.body.(approvals := []) == r.body;
    }
  }

  lemma RunSnoc(signer: Signer, ops: seq<Op>, op: Op)
    ensures Run(signer, ops + [op]) == Step(signer, Run(signer, ops), op)
  {
    assert (ops + [op])[..|ops|] == ops;
  }

  lemma LegalSnoc(signer: Signer, ops: seq<Op>, op: Op)
    requires Legal(signer, ops) && Enabled(Run(signer, ops), op)
    ensures Legal(signer, ops + [op])
  {
    assert (ops + [op])[..|ops|] == ops;
  }

  /** Such a record is reached whenever, after any run, a checkpoint is created that needs two or more
      approvals, and it gets its first one: it waits, has one approval, and fails verification. */
  lemma WaitingUnverified(
      signer: Signer, ops: seq<Op>, id: string, q: Request, reviewer: string, note: Option<string>, at: string,
      now: string)
    returns (longer: seq<Op>)
    requires CanCreate(signer, ops, id, q) && signer.Some? && q.required >= 2
    requires TellsApprovals(signer, Approve(signer, NewRecord(signer, id, q, now), reviewer, note, at, now).body)
    ensures longer == ops + [Create(id, q, now), ApproveBy(id, reviewer, note, at, now)]
    ensures Legal(signer, longer) && id in Run(signer, longer).records
    ensures var r := Run(signer, longer).records[id];
            r.body.status == WAITING && |r.body.approvals| == 1 && !Verifies(signer, r)
  {
    longer := ops + [Create(id, q, now)] + [ApproveBy(id, reviewer, note, at, now)];
    assert longer == ops + [Create(id, q, now), ApproveBy(id, reviewer, note, at, now)];
    var r := NewRecord(signer, id, q, now);
    FirstApprovalWaits(signer, r, reviewer, note, at, now);
    assert Approve(signer, r, reviewer, note, at, now).signature == r.signature;
    WaitingSignature(signer, r, Approve(signer, r, reviewer, note, at, now));
    hide *;
    CreatedRun(signer, ops, id, q, now);
    ApprovedRun(signer, ops + [Create(id, q, now)], id, reviewer, note, at, now);
  }

  /** A legal run after which a checkpoint may be created under this id. */
  ghost predicate CanCreate(signer: Signer, ops: seq<Op>, id: string, q: Request) {
    Legal(signer, ops) && Enabled(Run(signer, ops), Create(id, q, ""))
  }

  lemma WaitingSignature(signer: Signer, r: Record, after: Record)
    requires signer.Some? && r == Sign(signer, r.body) && r.body == after.body.(approvals := [])
    requires after.signature == r.signature && after.body.approvals != [] && TellsApprovals(signer, after.body)
    ensures !Verifies(signer, after)
  {
  }

  lemma CreatedRun(signer: Signer, ops: seq<Op>, id: string, q: Request, now: string)
    requires CanCreate(signer, ops, id, q)
    ensures var longer := ops + [Create(id, q, now)];
            && Legal(signer, longer) && Waiting(Run(signer, longer), id)
            && Run(signer, longer).records[id] == NewRecord(signer, id, q, now)
  {
    hide Run, Legal;
    RunSnoc(signer, ops, Create(id, q, now));
    LegalSnoc(signer, ops, Create(id, q, now));
  }

  /** An approval added to a run in which the checkpoint waits. */
  lemma ApprovedRun(
      signer: Signer, ops: seq<Op>, id: string, reviewer: string, note: Option<string>, at: string, now: string)
    requires Legal(signer, ops) && Waiting(Run(signer, ops), id)
    ensures var longer := ops + [ApproveBy(id, reviewer, note, at, now)];
            && Legal(signer, longer) && id in Run(signer, longer).records
            && Run(signer, longer).records[id] ==
               Approve(signer, Run(signer, ops).records[id], reviewer, note, at, now)
  {
    var approve := ApproveBy(id, reviewer, note, at, now);
    hide Run, Legal, Approve;
    RunSnoc(signer, ops, approve);
    LegalSnoc(signer, ops, approve);
  }

  lemma FirstApprovalWaits(signer: Signer, r: Record, reviewer: string, note: Option<string>, at: string, now: string)
    requires r.body.required >= 2 && r.body.approvals == [] && r.body.status == WAITING
    ensures var after := Approve(signer, r, reviewer, note, at, now);
            after.body.status == WAITING && |after.body.approvals| == 1
  {
    var added := AddDecision(r, Approval(APPROVED, reviewer, note, at));
    assert added.body.approvals == [Approval(APPROVED, reviewer, note, at)];
    AllCounted(added.body.approvals);
  }

  // ---------------------------------------------------------------------------------------------
  // A quorum counts approvals, not approvers

  predicate DecidesOn(s: State, op: Op, id: string) {
    (op.ApproveBy? || op.RejectBy?) && op.id == id && Waiting(s, id)
  }

  /** What a decision leaves in the record. */
  function DecisionOf(op: Op): Approval
    requires op.ApproveBy? || op.RejectBy?
  {
    Approval(if op.ApproveBy? then "approved" else "rejected", op.reviewer, op.note, op.at)
  }

  /** The decisions about the checkpoint while it waited, in order. */
  function Decisions(signer: Signer, ops: seq<Op>, id: string): seq<Approval> {
    if ops == [] then []
    else
      var n := |ops| - 1;
      var op := ops[n];
      Decisions(signer, ops[..n], id) + (if DecidesOn(Run(signer, ops[..n]), op, id) then [DecisionOf(op)] else [])
  }

  function Names(approvals: seq<Approval>): (r: seq<string>)
    ensures |r| == |approvals| && forall i | 0 <= i < |approvals| :: r[i] == approvals[i].reviewer
  {
    seq(|approvals|, i requires 0 <= i < |approvals| => approvals[i].reviewer)
  }

  function SetOf(names: seq<string>): set<string> {
    set n | n in names
  }

  lemma {:induction false} SetSize(names: seq<string>)
    ensures |SetOf(names)| <= |names|
    ensures |SetOf(names)| == |names| <==> Distinct(names)
    decreases |names|
  {
    if names == [] {
      assert SetOf(names) == {};
    } else {
      var n := |names| - 1;
      var front, last := names[..n], names[n];
      SetSize(front);
      assert SetOf(names) == SetOf(front) + {last};
      if last in SetOf(front) {
        assert SetOf(front) + {last} == SetOf(front);
      }
    }
  }

  ghost predicate Recorded(s: State, id: string, decisions: seq<Approval>) {
    if id in s.records then s.records[id].body.approvals == decisions else decisions == []
  }

  /** The record holds exactly the decisions that were made while the checkpoint waited, each with
      its kind, reviewer, note and time, in order. */
  lemma {:induction false} DecisionsRecorded(signer: Signer, ops: seq<Op>, id: string)
    requires Legal(signer, ops)
    ensures Recorded(Run(signer, ops), id, Decisions(signer, ops, id))
    decreases |ops|
  {
    if ops != [] {
      var n := |ops| - 1;
      LegalPrefix(signer, ops, n);
      RunStep(signer, ops);
      DecisionsRecorded(signer, ops[..n], id);
      hide Run, Legal, Step;
      StepRecorded(signer, Run(signer, ops[..n]), ops[n], id, Decisions(signer, ops[..n], id));
    }
  }

  lemma StepRecorded(signer: Signer, s: State, op: Op, id: string, decisions: seq<Approval>)
    requires Enabled(s, op) && Recorded(s, id, decisions)
    ensures Recorded(Step(signer, s, op), id, decisions + if DecidesOn(s, op, id) then [DecisionOf(op)] else [])
  {
    assert decisions + [] == decisions;
  }

  /** A checkpoint that its approvers approved was approved by as many different people as it
      requires exactly when nobody approved it twice. */
  lemma {:induction false} QuorumOfPeople(signer: Signer, ops: seq<Op>, id: string)
    requires Legal(signer, ops) && id in Run(signer, ops).records
    requires ByApprovers(Run(signer, ops).records[id].body)
    ensures var b := Run(signer, ops).records[id].body;
            && |SetOf(Names(b.approvals))| <= b.required
            && (|SetOf(Names(b.approvals))| == b.required <==> Distinct(Names(Decisions(signer, ops, id))))
  {
    DecisionsRecorded(signer, ops, id);
    hide Run, Decisions, Legal;
    SetSize(Names(Decisions(signer, ops, id)));
  }

  /** After any run, one person can fill a quorum of two. */
  lemma OnePersonTwice(
      signer: Signer, ops: seq<Op>, id: string, q: Request, reviewer: string, note: Option<string>, at: string,
      now: string)
    returns (longer: seq<Op>)
    requires CanCreate(signer, ops, id, q) && q.required == 2
    ensures var approve := ApproveBy(id, reviewer, note, at, now);
            longer == ops + [Create(id, q, now), approve, approve]
    ensures Legal(signer, longer) && id in Run(signer, longer).records
    ensures var b := Run(signer, longer).records[id].body;
            b.required == 2 && b.status == APPROVED && SetOf(Names(b.approvals)) == {reviewer}
  {
    var approve, r := ApproveBy(id, reviewer, note, at, now), NewRecord(signer, id, q, now);
    FirstApprovalWaits(signer, r, reviewer, note, at, now);
    SecondApprovalResolves(signer, r, reviewer, note, at, now);
    longer := ops + [Create(id, q, now)] + [approve] + [approve];
    assert longer == ops + [Create(id, q, now), approve, approve];
    hide Run, Legal, CanCreate, NewRecord, Approve, SetOf, Names;
    CreatedRun(signer, ops, id, q, now);
    ApprovedRun(signer, ops + [Create(id, q, now)], id, reviewer, note, at, now);
    ApprovedRun(signer, ops + [Create(id, q, now)] + [approve], id, reviewer, note, at, now);
  }

  lemma SecondApprovalResolves(
      signer: Signer, r: Record, reviewer: string, note: Option<string>, at: string, now: string)
    requires r.body.required == 2 && r.body.approvals == [] && r.body.status == WAITING
    ensures var once := Approve(signer, r, reviewer, note, at, now);
            var b := Approve(signer, once, reviewer, note, at, now).body;
            b.status == APPROVED && b.required == 2 && SetOf(Names(b.approvals)) == {reviewer}
  {
    FirstApprovalWaits(signer, r, reviewer, note, at, now);
    var a := Approval(APPROVED, reviewer, note, at);
    var once := Approve(signer, r, reviewer, note, at, now);
    assert once.body.approvals == [a];
    assert once.body.approvals + [a] == [a, a];
    AllCounted([a, a]);
    assert Names([a, a]) == [reviewer, reviewer];
  }

  // ---------------------------------------------------------------------------------------------
  // Resolution is final

  ghost predicate Resolved(s: State, id: string) {
    id in s.records && s.records[id].body.status != WAITING
  }

  lemma StepFreezes(signer: Signer, s: State, op: Op, id: string)
    requires Enabled(s, op) && id in s.records
    ensures id in Step(signer, s, op).records
    ensures Resolved(s, id) ==> Step(signer, s, op).records[id] == s.records[id]
  {
  }

  lemma RunStep(signer: Signer, ops: seq<Op>)
    requires Legal(signer, ops) && ops != []
    ensures var n := |ops| - 1;
            && Run(signer, ops) == Step(signer, Run(signer, ops[..n]), ops[n])
            && Enabled(Run(signer, ops[..n]), ops[n])
  {
  }

  /** Once resolved, a record is the same in every later state. */
  lemma {:induction false} ResolvedIsFrozen(signer: Signer, ops: seq<Op>, i: nat, id: string)
    requires Legal(signer, ops) && i <= |ops| && Resolved(Run(signer, ops[..i]), id)
    ensures id in Run(signer, ops).records
    ensures Run(signer, ops).records[id] == Run(signer, ops[..i]).records[id]
    decreases |ops|
  {
    if i == |ops| {
      assert ops[..i] == ops;
    } else {
      var n := |ops| - 1;
      LegalPrefix(signer, ops, n);
      assert ops[..n][..i] == ops[..i];
      RunStep(signer, ops);
      hide Run, Step, Legal, Enabled;
      ResolvedIsFrozen(signer, ops[..n], i, id);
      StepFreezes(signer, Run(signer, ops[..n]), ops[n], id);
    }
  }

  /** Step `i` of the run is the one that resolves the checkpoint. */
  ghost predicate ResolvesAt(signer: Signer, ops: seq<Op>, id: string, i: nat)
    requires i < |ops|
  {
    !Resolved(Run(signer, ops[..i]), id) && Resolved(Run(signer, ops[..i + 1]), id)
  }

  lemma ResolvesAtMostOnce(signer: Signer, ops: seq<Op>, id: string, i: nat, j: nat)
    requires Legal(signer, ops) && i < |ops| && j < |ops|
    requires ResolvesAt(signer, ops, id, i) && ResolvesAt(signer, ops, id, j)
    ensures i == j
  {
    var first, second := if i < j then i else j, if i < j then j else i;
    hide Run, Legal;
    if first < second {
      LegalPrefix(signer, ops, second);
      assert ops[..second][..first + 1] == ops[..first + 1];
      ResolvedIsFrozen(signer, ops[..second], first + 1, id);
    }
  }

  /** The part of a record that no step after its creation may change. */
  datatype Charter = Charter(id: string, trigger: string, message: string, orgId: Option<string>, userId: string,
                             statusUrl: string, hosted: bool, required: int, escalation: seq<Rule>, createdAt: string)

  function CharterOf(b: Body): Charter {
    Charter(b.id, b.trigger, b.message, b.orgId, b.userId, b.statusUrl, b.hosted, b.required, b.escalation, b.createdAt)
  }

  /** The record is still there, on the same terms, and its decisions only grew at the end. */
  ghost predicate Extends(s: State, s': State, id: string) {
    id in s.records ==> id in s'.records && RecordExtends(s.records[id], s'.records[id])
  }

  ghost predicate RecordExtends(r: Record, r': Record) {
    CharterOf(r'.body) == CharterOf(r.body) && r.body.approvals <= r'.body.approvals
  }

  /** A decision or a timeout extends the record. */
  lemma VersionsExtend(
      signer: Signer, r: Record, reviewer: string, note: Option<string>, at: string, now: string, rule: Rule)
    ensures RecordExtends(r, Approve(signer, r, reviewer, note, at, now))
    ensures RecordExtends(r, Reject(signer, r, reviewer, note, at, now))
    ensures RecordExtends(r, TimeOut(signer, r, rule, now))
  {
  }

  lemma RecordExtendsItself(r: Record)
    ensures RecordExtends(r, r)
  {
  }

  lemma StepExtends(signer: Signer, s: State, op: Op, id: string)
    requires Enabled(s, op)
    ensures Extends(s, Step(signer, s, op), id)
  {
    if id in s.records {
      var r := s.records[id];
      RecordExtendsItself(r);
      hide RecordExtends, Approve, Reject, TimeOut, NewRecord;
      match op
      case ApproveBy(_, reviewer, note, at, now) =>
        VersionsExtend(signer, r, reviewer, note, at, now, Rule(0, [], None));
      case RejectBy(_, reviewer, note, at, now) =>
        VersionsExtend(signer, r, reviewer, note, at, now, Rule(0, [], None));
      case Fire(k, now) =>
        if k < |s.tasks| {
          VersionsExtend(signer, r, "", None, "", now, s.tasks[k].rule);
        }
      case _ =>
    }
  }

  lemma ExtendsTransitive(a: State, b: State, c: State, id: string)
    requires Extends(a, b, id) && Extends(b, c, id)
    ensures Extends(a, c, id)
  {
  }

  /** Over any stretch of a run, decisions are only added and the terms of a checkpoint never change. */
  lemma {:induction false} RecordsExtend(signer: Signer, ops: seq<Op>, i: nat, id: string)
    requires Legal(signer, ops) && i <= |ops|
    ensures Extends(Run(signer, ops[..i]), Run(signer, ops), id)
    decreases |ops|
  {
    if i == |ops| {
      assert ops[..i] == ops;
    } else {
      var n := |ops| - 1;
      LegalPrefix(signer, ops, n);
      assert ops[..n][..i] == ops[..i];
      RunStep(signer, ops);
      hide *;
      RecordsExtend(signer, ops[..n], i, id);
      StepExtends(signer, Run(signer, ops[..n]), ops[n], id);
      ExtendsTransitive(Run(signer, ops[..i]), Run(signer, ops[..n]), Run(signer, ops), id);
    }
  }

  /** The condition on rules is exact: firing a deciding rule at a waiting checkpoint resolves it
      unless its `on_timeout` is the waiting status itself. */
  lemma TimeoutResolvesIff(signer: Signer, s: State, k: nat, now: string)
    requires k < |s.tasks| && Waiting(s, s.tasks[k].id) && Decides(s.tasks[k].rule)
    ensures Resolved(Step(signer, s, Fire(k, now)), s.tasks[k].id) <==> Harmless(s.tasks[k].rule)
  {
  }

  // ---------------------------------------------------------------------------------------------
  // What resolved a checkpoint, and how

  /** Step `op`, taken in state `s`, turned the waiting record of `id` into `b`, and nothing but the
      outcome changed. */
  ghost predicate Explains(s: State, op: Op, id: string, b: Body) {
    Waiting(s, id) &&
    var before := s.records[id].body;
    match op
    case ApproveBy(i, reviewer, note, at, now) =>
      && i == id && |before.approvals| + 1 == before.required
      && b == before.(status := "approved", resolvedAt := Some(now), reviewer := Some(reviewer), reviewerNote := note,
                      approvals := before.approvals + [Approval("approved", reviewer, note, at)])
    case RejectBy(i, reviewer, note, at, now) =>
      && i == id
      && b == before.(status := "rejected", resolvedAt := Some(now), reviewer := Some(reviewer), reviewerNote := note,
                      approvals := before.approvals + [Approval("rejected", reviewer, note, at)])
    case Fire(k, now) =>
      && k < |s.tasks| && s.tasks[k].id == id && s.tasks[k].rule in before.escalation
      && ByRule(b, s.tasks[k].rule)
      && b == before.(status := b.status, resolvedAt := Some(now), reviewer := b.reviewer,
                      reviewerNote := b.reviewerNote)
    case _ => false
  }

  lemma ApprovalExplained(
      signer: Signer, r: Record, reviewer: string, note: Option<string>, at: string, now: string)
    requires GoodWaiting(signer, r) && r.body.status == WAITING
    ensures var b := Approve(signer, r, reviewer, note, at, now).body;
            b.status != WAITING ==>
              && |r.body.approvals| + 1 == r.body.required
              && b == r.body.(status := "approved", resolvedAt := Some(now), reviewer := Some(reviewer),
                              reviewerNote := note,
                              approvals := r.body.approvals + [Approval("approved", reviewer, note, at)])
  {
    AllCounted(r.body.approvals + [Approval(APPROVED, reviewer, note, at)]);
  }

  lemma TimeoutExplained(signer: Signer, r: Record, rule: Rule, now: string)
    requires r.body.status == WAITING
    ensures var b := TimeOut(signer, r, rule, now).body;
            b.status != WAITING ==>
              && ByRule(b, rule)
              && b == r.body.(status := b.status, resolvedAt := Some(now), reviewer := b.reviewer,
                              reviewerNote := b.reviewerNote)
  {
  }

  lemma StepExplains(signer: Signer, s: State, op: Op, id: string)
    requires Invariant(signer, s) && Enabled(s, op) && !Resolved(s, id) && Resolved(Step(signer, s, op), id)
    ensures Explains(s, op, id, Step(signer, s, op).records[id].body)
  {
    hide Approve, TimeOut, ByRule;
    if id in s.records {
      var r := s.records[id];
      assert Good(signer, id, r);
      match op
      case ApproveBy(_, reviewer, note, at, now) =>
        ApprovalExplained(signer, r, reviewer, note, at, now);
      case Fire(k, now) =>
        if k < |s.tasks| {
          assert s.tasks[k] in s.tasks;
          TimeoutExplained(signer, r, s.tasks[k].rule, now);
        }
      case _ =>
    }
  }

  lemma {:induction false} TurnedResolved(signer: Signer, ops: seq<Op>, id: string, n: nat) returns (i: nat)
    requires n <= |ops| && Resolved(Run(signer, ops[..n]), id)
    ensures i < n && !Resolved(Run(signer, ops[..i]), id) && Resolved(Run(signer, ops[..i + 1]), id)
  {
    assert n > 0;
    hide Run, Resolved;
    i := n - 1;
    if Resolved(Run(signer, ops[..i]), id) {
      i := TurnedResolved(signer, ops, id, i);
    }
  }

  lemma LegalStep(signer: Signer, ops: seq<Op>, i: nat)
    requires Legal(signer, ops) && i < |ops|
    ensures Enabled(Run(signer, ops[..i]), ops[i]) && Invariant(signer, Run(signer, ops[..i]))
    ensures Run(signer, ops[..i + 1]) == Step(signer, Run(signer, ops[..i]), ops[i])
  {
    LegalPrefix(signer, ops, i + 1);
    LegalPrefix(signer, ops, i);
    assert ops[..i + 1][..i] == ops[..i];
    RunStep(signer, ops[..i + 1]);
    hide Run, Legal, Step, Enabled;
    RunInvariant(signer, ops[..i]);
  }

  /** Every resolved checkpoint was resolved by one step: the approval that filled its quorum, a
      rejection, or one of its own timeout rules firing, with the outcome, reviewer, note and time of
      that step. */
  lemma ResolutionExplained(signer: Signer, ops: seq<Op>, id: string) returns (i: nat)
    requires Legal(signer, ops) && Resolved(Run(signer, ops), id)
    ensures i < |ops| && Explains(Run(signer, ops[..i]), ops[i], id, Run(signer, ops).records[id].body)
  {
    assert ops[..|ops|] == ops;
    assert id in Run(signer, ops).records;
    i := TurnedResolved(signer, ops, id, |ops|);
    hide Run, Step, Legal, Enabled, Invariant, Explains;
    LegalStep(signer, ops, i);
    StepExplains(signer, Run(signer, ops[..i]), ops[i], id);
    ResolvedIsFrozen(signer, ops, i + 1, id);
  }

  /** The record carries what its creator asked for. */
  ghost predicate CreatedBy(b: Body, op: Op) {
    op.Create? &&
    var q := op.request;
    && b.id == op.id && b.createdAt == op.now && b.trigger == q.trigger
    && b.message == (if q.message == "" then "Human approval required before proceeding." else q.message)
    && b.orgId == q.orgId && b.userId == q.userId && b.statusUrl == q.statusUrl && b.hosted == q.hosted
    && b.required == (if q.required < 1 then 1 else q.required)
    && b.escalation == q.escalation
  }

  lemma {:induction false} TurnedUp(signer: Signer, ops: seq<Op>, id: string, n: nat) returns (i: nat)
    requires n <= |ops| && id in Run(signer, ops[..n]).records
    ensures i < n && id !in Run(signer, ops[..i]).records && id in Run(signer, ops[..i + 1]).records
  {
    assert n > 0;
    hide Run;
    i := n - 1;
    if id in Run(signer, ops[..i]).records {
      i := TurnedUp(signer, ops, id, i);
    }
  }

  lemma CreationStep(signer: Signer, s: State, op: Op, id: string)
    requires id !in s.records && id in Step(signer, s, op).records
    ensures CreatedBy(Step(signer, s, op).records[id].body, op) && op.id == id
  {
  }

  lemma TermsKept(a: State, b: State, op: Op, id: string)
    requires id in a.records && CreatedBy(a.records[id].body, op) && Extends(a, b, id)
    ensures id in b.records && CreatedBy(b.records[id].body, op)
  {
  }

  /** In every reachable state a record has the terms of the step that created it. */
  lemma TermsOfCreation(signer: Signer, ops: seq<Op>, id: string) returns (i: nat)
    requires Legal(signer, ops) && id in Run(signer, ops).records
    ensures i < |ops| && ops[i].Create? && ops[i].id == id && CreatedBy(Run(signer, ops).records[id].body, ops[i])
  {
    assert ops[..|ops|] == ops;
    i := TurnedUp(signer, ops, id, |ops|);
    hide Run, Step, Legal, Enabled, Invariant, Extends;
    LegalStep(signer, ops, i);
    CreationStep(signer, Run(signer, ops[..i]), ops[i], id);
    RecordsExtend(signer, ops, i + 1, id);
    TermsKept(Run(signer, ops[..i + 1]), Run(signer, ops), ops[i], id);
  }

  // ---------------------------------------------------------------------------------------------
  // No timeout gets lost

  /** A rule that can do something: wait, decide, or notify. */
  predicate Acts(rule: Rule) {
    rule.afterSeconds > 0 || (rule.onTimeout.Some? && rule.onTimeout.value != "") || rule.channels != []
  }

  lemma {:induction false} TasksCounted(id: string, rules: seq<Rule>, t: Task)
    ensures multiset(TasksFor(id, rules))[t] == if t.id == id && Acts(t.rule) then multiset(rules)[t.rule] else 0
  {
    if rules != [] {
      var n := |rules| - 1;
      TasksCounted(id, rules[..n], t);
      assert rules == rules[..n] + [rules[n]];
    }
  }

  /** How many tasks like `t` there must be, pending or fired. */
  ghost function Owed(s: State, t: Task): nat {
    if t.id in s.records && t.id !in s.unscheduled && Acts(t.rule)
    then multiset(s.records[t.id].body.escalation)[t.rule]
    else 0
  }

  predicate Fires(s: State, op: Op, t: Task) {
    op.Fire? && op.task < |s.tasks| && s.tasks[op.task] == t
  }

  function Fired(signer: Signer, ops: seq<Op>, t: Task): nat {
    if ops == [] then 0
    else
      var n := |ops| - 1;
      Fired(signer, ops[..n], t) + if Fires(Run(signer, ops[..n]), ops[n], t) then 1 else 0
  }

  lemma ScheduleAccounts(signer: Signer, s: State, id: string, t: Task, fired: nat)
    requires multiset(s.tasks)[t] + fired == Owed(s, t)
    ensures var s' := Step(signer, s, Schedule(id)); multiset(s'.tasks)[t] + fired == Owed(s', t)
  {
    hide Acts;
    if id in s.records {
      TasksCounted(id, s.records[id].body.escalation, t);
    }
  }

  lemma FireAccounts(signer: Signer, s: State, k: nat, now: string, t: Task)
    requires k < |s.tasks|
    ensures var s' := Step(signer, s, Fire(k, now));
            && multiset(s'.tasks)[t] + (if s.tasks[k] == t then 1 else 0) == multiset(s.tasks)[t]
            && Owed(s', t) == Owed(s, t)
  {
    assert s.tasks == s.tasks[..k] + [s.tasks[k]] + s.tasks[k + 1..];
    hide Acts;
  }

  lemma OthersAccount(signer: Signer, s: State, op: Op, t: Task)
    requires Enabled(s, op) && !op.Schedule? && !op.Fire?
    ensures var s' := Step(signer, s, op);
            && s'.tasks == s.tasks
            && (Owed(s', t) == Owed(s, t) || (op.Create? && op.id == t.id && Owed(s, t) == Owed(s', t) == 0))
  {
    hide Acts;
    if t.id in s.records {
      StepExtends(signer, s, op, t.id);
    }
  }

  lemma StepAccounts(signer: Signer, s: State, op: Op, t: Task, fired: nat)
    requires Enabled(s, op) && multiset(s.tasks)[t] + fired == Owed(s, t)
    ensures var s' := Step(signer, s, op);
            multiset(s'.tasks)[t] + fired + (if Fires(s, op, t) then 1 else 0) == Owed(s', t)
  {
    if op.Fire? && op.task >= |s.tasks| {
      assert Step(signer, s, op) == s;
    }
    hide Step, Owed, Enabled;
    match op
    case Schedule(id) => ScheduleAccounts(signer, s, id, t, fired);
    case Fire(k, now) =>
      if k < |s.tasks| {
        FireAccounts(signer, s, k, now, t);
      }
    case _ => OthersAccount(signer, s, op, t);
  }

  /** In every reachable state, the pending and the fired tasks of a scheduled checkpoint are together
      exactly its rules that can do something, and before scheduling it has none. */
  lemma {:induction false} TasksAccounted(signer: Signer, ops: seq<Op>, t: Task)
    requires Legal(signer, ops)
    ensures multiset(Run(signer, ops).tasks)[t] + Fired(signer, ops, t) == Owed(Run(signer, ops), t)
    decreases |ops|
  {
    if ops != [] {
      var n := |ops| - 1;
      LegalPrefix(signer, ops, n);
      RunStep(signer, ops);
      hide Run, Step, Legal, Enabled;
      TasksAccounted(signer, ops[..n], t);
      StepAccounts(signer, Run(signer, ops[..n]), ops[n], t, Fired(signer, ops[..n], t));
    }
  }

  /** A deciding rule that has fired has resolved its checkpoint. */
  lemma {:induction false} FiredResolves(signer: Signer, ops: seq<Op>, t: Task)
    requires Legal(signer, ops) && Decides(t.rule) && Fired(signer, ops, t) > 0
    ensures Resolved(Run(signer, ops), t.id)
    decreases |ops|
  {
    var n := |ops| - 1;
    LegalPrefix(signer, ops, n);
    RunStep(signer, ops);
    RunInvariant(signer, ops[..n]);
    hide Run, Step, Legal, Enabled;
    if Fires(Run(signer, ops[..n]), ops[n], t) {
      FiringResolves(signer, Run(signer, ops[..n]), ops[n].task, ops[n].now);
    } else {
      FiredResolves(signer, ops[..n], t);
      StepFreezes(signer, Run(signer, ops[..n]), ops[n], t.id);
    }
  }

  lemma FiringResolves(signer: Signer, s: State, k: nat, now: string)
    requires Invariant(signer, s) && k < |s.tasks| && Decides(s.tasks[k].rule)
    ensures Resolved(Step(signer, s, Fire(k, now)), s.tasks[k].id)
  {
    var t := s.tasks[k];
    assert t in s.tasks && Good(signer, t.id, s.records[t.id]);
    if Waiting(s, t.id) {
      TimeoutResolvesIff(signer, s, k, now);
    }
  }

  /** A checkpoint that still waits after scheduling has a pending task for every deciding rule, and
      firing it resolves the checkpoint. */
  lemma TimeoutStillPending(signer: Signer, ops: seq<Op>, id: string, rule: Rule, now: string) returns (k: nat)
    requires Legal(signer, ops) && Waiting(Run(signer, ops), id) && id !in Run(signer, ops).unscheduled
    requires rule in Run(signer, ops).records[id].body.escalation && Decides(rule)
    ensures k < |Run(signer, ops).tasks| && Run(signer, ops).tasks[k] == Task(id, rule)
    ensures Resolved(Step(signer, Run(signer, ops), Fire(k, now)), id)
  {
    var t := Task(id, rule);
    TasksAccounted(signer, ops, t);
    RunInvariant(signer, ops);
    hide Run, Step, Legal;
    if Fired(signer, ops, t) > 0 {
      FiredResolves(signer, ops, t);
    }
    assert t in Run(signer, ops).tasks;
    k :| 0 <= k < |Run(signer, ops).tasks| && Run(signer, ops).tasks[k] == t;
    FiringResolves(signer, Run(signer, ops), k, now);
  }

  // ---------------------------------------------------------------------------------------------
  // The number in a timeout note

  /** Decimals: one digit stands for itself, a further digit goes behind the others, and negative numbers
      have a minus sign in front. */
  lemma DecimalGrows(n: nat, d: nat)
    requires d < 10
    ensures Decimal(d) == ["0123456789"[d]]
    ensures 0 < n ==> Decimal(10 * n + d) == Decimal(n) + ["0123456789"[d]]
    ensures forall m | m < 0 :: Decimal(m) == "-" + Decimal(-m)
  {
    assert (10 * n + d) / 10 == n && (10 * n + d) % 10 == d;
  }
}
