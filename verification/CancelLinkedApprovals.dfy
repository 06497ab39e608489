/** Cancelling the approval requests and workflows linked to a leave or monthly-off entity, over in-memory tables. */
module CancelLinkedApprovals {
  import opened Outcomes

  datatype Request = Request(
    id: string, deleted: bool, integrationType: string, integrationId: string,
    status: string, cancelledAt: Option<int>, cancelledReason: Option<string>, integrationStatus: string)

  datatype ApprovalStep = ApprovalStep(requestId: string, status: string)

  datatype Payload = Staged(entityId: string) | Cascade(entityType: string, entityId: string) | Other

  datatype Event = Event(requestId: string, eventType: string, actor: string, message: string, payload: Payload)

  datatype Workflow = Workflow(entityType: string, entityId: string, status: string, deleted: bool, updatedBy: string)

  datatype Input = Input(entityType: string, workflowEntityType: string, entityId: string, actor: string, reason: string, now: int)

  const CANCELLED: string := "cancelled"
  const REJECTED: string := "rejected"
  const PENDING: string := "pending"
  const EXECUTED: string := "integration_action_executed"

  predicate Terminal(status: string) {
    status == CANCELLED || status == REJECTED
  }

  // ---- Which requests are selected ----

  predicate LinkedByIntegration(r: Request, entityType: string, entityId: string) {
    !r.deleted && r.integrationType == entityType && r.integrationId == entityId && !Terminal(r.status)
  }

  predicate LinkedByEvent(e: Event, entityId: string) {
    e.eventType == EXECUTED && e.payload == Staged(entityId)
  }

  predicate Selects(requests: seq<Request>, events: seq<Event>, entityType: string, entityId: string, id: string) {
    || (exists k :: 0 <= k < |requests| && requests[k].id == id && LinkedByIntegration(requests[k], entityType, entityId))
    || (exists k :: 0 <= k < |events| && events[k].requestId == id && LinkedByEvent(events[k], entityId))
  }

  predicate NoRepeats(ids: seq<string>) {
    forall i, j :: 0 <= i < j < |ids| ==> ids[i] != ids[j]
  }

  // ---- What the updates do ----

  function CancelRequest(r: Request, input: Input): Request {
    if Terminal(r.status) then r
    else r.(status := CANCELLED, cancelledAt := Some(input.now), cancelledReason := Some(input.reason), integrationStatus := CANCELLED)
  }

  function CancelRequests(requests: seq<Request>, ids: seq<string>, input: Input): (after: seq<Request>)
    ensures |after| == |requests|
  {
    seq(|requests|, i requires 0 <= i < |requests| => if requests[i].id in ids then CancelRequest(requests[i], input) else requests[i])
  }

  function CancelSteps(steps: seq<ApprovalStep>, ids: seq<string>): (after: seq<ApprovalStep>)
    ensures |after| == |steps|
  {
    seq(|steps|, i requires 0 <= i < |steps| =>
      if steps[i].requestId in ids && steps[i].status == PENDING then steps[i].(status := CANCELLED) else steps[i])
  }

  function CascadeEvent(id: string, input: Input): Event {
    Event(id, CANCELLED, input.actor, input.reason, Cascade(input.entityType, input.entityId))
  }

  function CascadeEvents(ids: seq<string>, input: Input): (events: seq<Event>)
    ensures |events| == |ids|
  {
    seq(|ids|, i requires 0 <= i < |ids| => CascadeEvent(ids[i], input))
  }

  predicate IsLinkedWorkflow(w: Workflow, input: Input) {
    w.entityType == input.workflowEntityType && w.entityId == input.entityId && w.status == PENDING && !w.deleted
  }

  function CancelWorkflows(workflows: seq<Workflow>, input: Input): (after: seq<Workflow>)
    ensures |after| == |workflows|
  {
    seq(|workflows|, i requires 0 <= i < |workflows| =>
      if IsLinkedWorkflow(workflows[i], input) then workflows[i].(status := CANCELLED, updatedBy := input.actor) else workflows[i])
  }

  class Database {
    var requests: seq<Request>
    var steps: seq<ApprovalStep>
    var events: seq<Event>
    var workflows: seq<Workflow>

    /** The ids the call will cancel, each once, in the order the two queries give them. */
    method SelectIds(input: Input) returns (ids: seq<string>)
      ensures NoRepeats(ids)
      ensures forall id :: id in ids <==> Selects(requests, events, input.entityType, input.entityId, id)
    {
      ids := [];
      for k := 0 to |requests|
        invariant NoRepeats(ids)
        invariant forall id :: id in ids <==> Selects(requests[..k], [], input.entityType, input.entityId, id)
      {
        if LinkedByIntegration(requests[k], input.entityType, input.entityId) && requests[k].id !in ids {
          ids := ids + [requests[k].id];
        }
        SelectsMoreRequests(requests, k, input);
      }
      assert requests[..|requests|] == requests;
      assert events[..0] == [];
      for k := 0 to |events|
        invariant NoRepeats(ids)
        invariant forall id :: id in ids <==> Selects(requests, events[..k], input.entityType, input.entityId, id)
      {
        if LinkedByEvent(events[k], input.entityId) && events[k].requestId !in ids {
          ids := ids + [events[k].requestId];
        }
        SelectsMoreEvents(requests, events, k, input);
      }
      assert events[..|events|] == events;
    }

    method CancelLinked(input: Input) returns (ghost ids: seq<string>)
      modifies this
      ensures NoRepeats(ids)
      ensures forall id :: id in ids <==> Selects(old(requests), old(events), input.entityType, input.entityId, id)
      ensures requests == CancelRequests(old(requests), ids, input)
      ensures steps == CancelSteps(old(steps), ids)
      ensures events == old(events) + CascadeEvents(ids, input)
      ensures workflows == CancelWorkflows(old(workflows), input)
      ensures forall k :: 0 <= k < |requests| ==>
        if old(requests)[k].id in ids then Terminal(requests[k].status) else requests[k] == old(requests)[k]
      ensures forall k :: 0 <= k < |requests| && Terminal(old(requests)[k].status) ==> requests[k] == old(requests)[k]
      ensures forall k :: 0 <= k < |steps| && steps[k].requestId in ids ==> steps[k].status != PENDING
    {
      var instanceIds := SelectIds(input);
      ids := instanceIds;
      for k := 0 to |instanceIds|
        invariant requests == CancelRequests(old(requests), ids[..k], input)
        invariant steps == CancelSteps(old(steps), ids[..k])
        invariant events == old(events) + CascadeEvents(ids[..k], input)
        invariant workflows == old(workflows)
      {
        var id := instanceIds[k];
        NextId(old(requests), old(steps), ids, k, input);
        requests := CancelRequests(requests, [id], input);
        steps := CancelSteps(steps, [id]);
        events := events + [CascadeEvent(id, input)];
      }
      assert ids[..|ids|] == ids;
      forall k | 0 <= k < |requests| {
        RequestsEndTerminal(old(requests), ids, input, k);
      }
      forall k | 0 <= k < |steps| {
        NoPendingStepIsLeft(old(steps), ids, k);
      }
      workflows := CancelWorkflows(workflows, input);
    }
  }

  lemma SelectsMoreRequests(requests: seq<Request>, k: nat, input: Input)
    requires k < |requests|
    ensures forall id :: Selects(requests[..k + 1], [], input.entityType, input.entityId, id) <==>
      Selects(requests[..k], [], input.entityType, input.entityId, id)
      || (requests[k].id == id && LinkedByIntegration(requests[k], input.entityType, input.entityId))
  {
    var a, b := requests[..k], requests[..k + 1];
    assert b == a + [requests[k]];
    forall id | Selects(a, [], input.entityType, input.entityId, id) ensures Selects(b, [], input.entityType, input.entityId, id) {
      var j :| 0 <= j < k && a[j].id == id && LinkedByIntegration(a[j], input.entityType, input.entityId);
      assert b[j] == a[j];
    }
    assert b[k] == requests[k];
  }

  lemma SelectsMoreEvents(requests: seq<Request>, events: seq<Event>, k: nat, input: Input)
    requires k < |events|
    ensures forall id :: Selects(requests, events[..k + 1], input.entityType, input.entityId, id) <==>
      Selects(requests, events[..k], input.entityType, input.entityId, id)
      || (events[k].requestId == id && LinkedByEvent(events[k], input.entityId))
  {
    var a, b := events[..k], events[..k + 1];
    assert b == a + [events[k]];
    forall id, j | 0 <= j < k && a[j].requestId == id && LinkedByEvent(a[j], input.entityId)
      ensures Selects(requests, b, input.entityType, input.entityId, id)
    {
      assert b[j] == a[j];
    }
    assert b[k] == events[k];
  }

  /** Cancelling one more id after the first k is cancelling the first k + 1 at once. */
  lemma NextId(requests: seq<Request>, steps: seq<ApprovalStep>, ids: seq<string>, k: nat, input: Input)
    requires k < |ids|
    ensures CancelRequests(CancelRequests(requests, ids[..k], input), [ids[k]], input) == CancelRequests(requests, ids[..k + 1], input)
    ensures CancelSteps(CancelSteps(steps, ids[..k]), [ids[k]]) == CancelSteps(steps, ids[..k + 1])
    ensures CascadeEvents(ids[..k], input) + [CascadeEvent(ids[k], input)] == CascadeEvents(ids[..k + 1], input)
  {
    assert ids[..k + 1] == ids[..k] + [ids[k]];
  }

  // ---- What the call achieves ----

  /** A request linked to the entity and open, or the one of an executed action that staged the entity. */
  ghost predicate IsLinked(requests: seq<Request>, events: seq<Event>, input: Input, id: string) {
    || (exists r :: r in requests && r.id == id && !r.deleted && r.integrationType == input.entityType
                    && r.integrationId == input.entityId && r.status != "cancelled" && r.status != "rejected")
    || (exists e :: e in events && e.requestId == id && e.eventType == "integration_action_executed" && e.payload == Staged(input.entityId))
  }

  lemma SelectsTheLinked(requests: seq<Request>, events: seq<Event>, input: Input, id: string)
    ensures Selects(requests, events, input.entityType, input.entityId, id) <==> IsLinked(requests, events, input, id)
  {
    forall r | r in requests && r.id == id && LinkedByIntegration(r, input.entityType, input.entityId)
      ensures Selects(requests, events, input.entityType, input.entityId, id)
    {
      var k :| 0 <= k < |requests| && requests[k] == r;
    }
    forall e | e in events && e.requestId == id && LinkedByEvent(e, input.entityId)
      ensures Selects(requests, events, input.entityType, input.entityId, id)
    {
      var k :| 0 <= k < |events| && events[k] == e;
    }
  }

  /** Every record after a call that cancels the requests of these ids. */
  lemma EveryRecordAfter(requests: seq<Request>, steps: seq<ApprovalStep>, workflows: seq<Workflow>, ids: seq<string>, input: Input, k: nat)
    ensures k < |requests| ==>
      var r := requests[k];
      CancelRequests(requests, ids, input)[k]
        == if r.id !in ids || r.status == "cancelled" || r.status == "rejected" then r
           else Request(r.id, r.deleted, r.integrationType, r.integrationId, "cancelled", Some(input.now), Some(input.reason), "cancelled")
    ensures k < |steps| ==>
      var s := steps[k];
      CancelSteps(steps, ids)[k] == if s.requestId in ids && s.status == "pending" then ApprovalStep(s.requestId, "cancelled") else s
    ensures k < |ids| ==>
      CascadeEvents(ids, input)[k] == Event(ids[k], "cancelled", input.actor, input.reason, Cascade(input.entityType, input.entityId))
    ensures k < |workflows| ==>
      var w := workflows[k];
      CancelWorkflows(workflows, input)[k]
        == if w.entityType == input.workflowEntityType && w.entityId == input.entityId && w.status == "pending" && !w.deleted
           then Workflow(w.entityType, w.entityId, "cancelled", w.deleted, input.actor) else w
  {
  }

  /** Selected requests end terminal, those that already were keep every field, and all others are untouched. */
  lemma RequestsEndTerminal(requests: seq<Request>, ids: seq<string>, input: Input, k: nat)
    requires k < |requests|
    ensures var before, after := requests[k], CancelRequests(requests, ids, input)[k];
            && after.id == before.id
            && (before.id in ids ==> Terminal(after.status))
            && (Terminal(before.status) || before.id !in ids ==> after == before)
            && (!Terminal(before.status) && before.id in ids ==>
                  after.status == CANCELLED && after.cancelledAt == Some(input.now) && after.cancelledReason == Some(input.reason))
  {
  }

  /** No selected request keeps a pending step; every other step is untouched. */
  lemma NoPendingStepIsLeft(steps: seq<ApprovalStep>, ids: seq<string>, k: nat)
    requires k < |steps|
    ensures var before, after := steps[k], CancelSteps(steps, ids)[k];
            && (before.requestId in ids ==> after.status != PENDING)
            && (before.requestId !in ids || before.status != PENDING ==> after == before)
  {
  }

  function CascadesOf(events: seq<Event>, id: string): nat {
    if events == [] then 0 else (if events[0].requestId == id then 1 else 0) + CascadesOf(events[1..], id)
  }

  /** Each call adds exactly one timeline event to every selected request and none to the others. */
  lemma {:induction false} OneEventEach(ids: seq<string>, input: Input, id: string)
    requires NoRepeats(ids)
    ensures CascadesOf(CascadeEvents(ids, input), id) == if id in ids then 1 else 0
  {
    if ids != [] {
      assert CascadeEvents(ids, input)[1..] == CascadeEvents(ids[1..], input);
      assert ids == [ids[0]] + ids[1..];
      OneEventEach(ids[1..], input, id);
    }
  }

  /** The ids a later call for the same entity selects: those of staged events only, all selected before. */
  lemma SecondSelection(requests: seq<Request>, events: seq<Event>, ids: seq<string>, first: Input, id: string)
    requires forall x :: x in ids <==> Selects(requests, events, first.entityType, first.entityId, x)
    ensures Selects(CancelRequests(requests, ids, first), events + CascadeEvents(ids, first), first.entityType, first.entityId, id)
       <==> exists k :: 0 <= k < |events| && events[k].requestId == id && LinkedByEvent(events[k], first.entityId)
  {
    var after, log := CancelRequests(requests, ids, first), events + CascadeEvents(ids, first);
    forall k | 0 <= k < |after| ensures !LinkedByIntegration(after[k], first.entityType, first.entityId) {
      if LinkedByIntegration(requests[k], first.entityType, first.entityId) {
        assert Selects(requests, events, first.entityType, first.entityId, requests[k].id);
      }
    }
    if k :| 0 <= k < |events| && events[k].requestId == id && LinkedByEvent(events[k], first.entityId) {
      assert log[k] == events[k];
    }
    if k :| 0 <= k < |log| && log[k].requestId == id && LinkedByEvent(log[k], first.entityId) {
      assert k < |events| && log[k] == events[k];
    }
  }

  /** A second call for the same entity, by anyone and at any time, changes no request, step or workflow. */
  lemma SecondCallChangesNoStatus(requests: seq<Request>, steps: seq<ApprovalStep>, events: seq<Event>, workflows: seq<Workflow>,
                                  first: Input, ids: seq<string>, second: Input, later: seq<string>)
    requires forall x :: x in ids <==> Selects(requests, events, first.entityType, first.entityId, x)
    requires second.entityType == first.entityType && second.entityId == first.entityId && second.workflowEntityType == first.workflowEntityType
    requires forall x :: x in later <==>
      Selects(CancelRequests(requests, ids, first), events + CascadeEvents(ids, first), second.entityType, second.entityId, x)
    ensures CancelRequests(CancelRequests(requests, ids, first), later, second) == CancelRequests(requests, ids, first)
    ensures CancelSteps(CancelSteps(steps, ids), later) == CancelSteps(steps, ids)
    ensures CancelWorkflows(CancelWorkflows(workflows, first), second) == CancelWorkflows(workflows, first)
  {
    forall x | x in later ensures x in ids {
      SecondSelection(requests, events, ids, first, x);
    }
    forall k | 0 <= k < |requests|
      ensures CancelRequests(CancelRequests(requests, ids, first), later, second)[k] == CancelRequests(requests, ids, first)[k]
    {
      RequestsEndTerminal(requests, ids, first, k);
    }
  }
}
