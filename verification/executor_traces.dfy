/**
 Properties of the executor over any sequential interleaving of its
 events: the calls `execute` and `stop`, the membership callbacks, and the
 status deliveries. The registry invariant holds throughout; a cmdlet id
 launched at most once is owned by at most one worker, so `stop` sends at
 most one `StopCmdlet`; status messages reach the manager once each, in
 order and unchanged; attribute changes are invisible. A departed worker
 keeps its cmdlets and stays selectable, and `canAcceptMore` can refuse
 work while `execute` would still dispatch.
 */
module ExecutorTraces {
  import opened JavaLang
  import opened HazelcastExecutor

  datatype Event =
    | Joined(uuid: Uuid)
    | Left(uuid: Uuid)
    | AttributesChanged(uuid: Uuid)
    | Submitted(cmdlet: LaunchCmdlet, members: seq<Uuid>, draw: int)
    | Cancelled(cmdletId: CmdletId, entries: seq<Uuid>)
    | StatusReceived(delivery: Delivery)

  /** The event can happen in `s`: a call's iteration order enumerates the map it iterates, and the draw is an `int`. */
  predicate Admissible(s: Service, e: Event) {
    match e
    case Submitted(_, members, draw) => EnumeratesKeys(members, s.masterToWorkers.Keys) && InIntRange(draw)
    case Cancelled(_, entries) => EnumeratesKeys(entries, s.scheduledCmdlets.Keys)
    case _ => true
  }

  function Apply(s: Service, e: Event): Step
    requires Admissible(s, e)
  {
    match e
    case Joined(u) => Done(MemberAdded(s, u))
    case Left(u) => Done(MemberRemoved(s, u))
    case AttributesChanged(u) => Done(MemberAttributeChanged(s, u))
    case Submitted(cmdlet, members, draw) => Execute(s, members, draw, cmdlet)
    case Cancelled(id, entries) => Stop(s, entries, id)
    case StatusReceived(d) => Done(OnMessage(s, d))
  }

  /** Every event can happen in the state the earlier ones leave, an exception included. */
  predicate AdmissibleTrace(s: Service, events: seq<Event>)
    decreases |events|
  {
    |events| == 0 || (Admissible(s, events[0]) && AdmissibleTrace(Apply(s, events[0]).state, events[1..]))
  }

  /** The state after `events`; a call that throws leaves the state it had reached. */
  function Run(s: Service, events: seq<Event>): Service
    requires AdmissibleTrace(s, events)
    decreases |events|
  {
    if |events| == 0 then s else Run(Apply(s, events[0]).state, events[1..])
  }

  // ---------------------------------------------------------------------
  // The registry invariant
  // ---------------------------------------------------------------------

  /** Every event keeps both maps on the same workers, each topic named after its worker. */
  lemma ApplyPreservesValid(s: Service, e: Event)
    requires Valid(s) && Admissible(s, e)
    ensures Valid(Apply(s, e).state)
  {
    match e
    case Cancelled(id, entries) =>
    case Submitted(cmdlet, members, draw) =>
    case _ =>
  }

  lemma {:induction false} RunPreservesValid(s: Service, events: seq<Event>)
    requires Valid(s) && AdmissibleTrace(s, events)
    ensures Valid(Run(s, events))
    decreases |events|
  {
    if |events| > 0 {
      ApplyPreservesValid(s, events[0]);
      RunPreservesValid(Apply(s, events[0]).state, events[1..]);
    }
  }

  /** On any consistent registry, no event dereferences a missing map entry. */
  lemma ValidNeverThrowsNullPointer(s: Service, e: Event)
    requires Valid(s) && Admissible(s, e)
    ensures !(Apply(s, e).Threw? && Apply(s, e).fault.NullPointer?)
  {
  }

  // ---------------------------------------------------------------------
  // Single ownership
  // ---------------------------------------------------------------------

  /** No cmdlet id is in two workers' sets. */
  ghost predicate SingleOwner(s: Service) {
    forall u, v, id ::
      (u in s.scheduledCmdlets && v in s.scheduledCmdlets &&
       id in s.scheduledCmdlets[u] && id in s.scheduledCmdlets[v]) ==> u == v
  }

  ghost predicate Tracked(s: Service, id: CmdletId) {
    exists u :: u in s.scheduledCmdlets && id in s.scheduledCmdlets[u]
  }

  /** The ids the trace submits are pairwise distinct and none is tracked in `s` already. */
  ghost predicate FreshSubmissions(s: Service, events: seq<Event>) {
    && (forall i :: 0 <= i < |events| && events[i].Submitted? ==> !Tracked(s, events[i].cmdlet.cmdletId))
    && (forall i, j :: 0 <= i < j < |events| && events[i].Submitted? && events[j].Submitted? ==>
          events[i].cmdlet.cmdletId != events[j].cmdlet.cmdletId)
  }

  /** One event keeps single ownership and tracks no id except the one it submits. */
  lemma ApplyKeepsOwnership(s: Service, e: Event)
    requires Valid(s) && SingleOwner(s) && Admissible(s, e)
    requires e.Submitted? ==> !Tracked(s, e.cmdlet.cmdletId)
    ensures SingleOwner(Apply(s, e).state)
    ensures forall id :: Tracked(Apply(s, e).state, id) ==> Tracked(s, id) || (e.Submitted? && id == e.cmdlet.cmdletId)
  {
    var s' := Apply(s, e).state;
    match e
    case Joined(u) =>
      if u !in s.masterToWorkers {
        forall id | Tracked(s', id) ensures Tracked(s, id) {
          var w :| w in s'.scheduledCmdlets && id in s'.scheduledCmdlets[w];
          assert w != u;
        }
      }
    case Submitted(cmdlet, members, draw) =>
      var r := Execute(s, members, draw, cmdlet);
      if r.Done? {
        var w := members[Rem(draw, |members|)];
        forall id | Tracked(s', id) && id != cmdlet.cmdletId ensures Tracked(s, id) {
          var v :| v in s'.scheduledCmdlets && id in s'.scheduledCmdlets[v];
          assert id in s.scheduledCmdlets[v];
        }
      }
    case _ =>
  }

  /**
   Single ownership over a whole trace: when every submitted id is new, no
   id ever ends up in two workers' sets.
   */
  lemma {:induction false} RunKeepsOwnership(s: Service, events: seq<Event>)
    requires Valid(s) && SingleOwner(s) && AdmissibleTrace(s, events)
    requires FreshSubmissions(s, events)
    ensures SingleOwner(Run(s, events))
    decreases |events|
  {
    if |events| > 0 {
      var e := events[0];
      var s' := Apply(s, e).state;
      ApplyKeepsOwnership(s, e);
      ApplyPreservesValid(s, e);
      var rest := events[1..];
      forall i | 0 <= i < |rest| && rest[i].Submitted? ensures !Tracked(s', rest[i].cmdlet.cmdletId) {
        assert events[i + 1] == rest[i];
      }
      forall i, j | 0 <= i < j < |rest| && rest[i].Submitted? && rest[j].Submitted?
        ensures rest[i].cmdlet.cmdletId != rest[j].cmdlet.cmdletId
      {
        assert events[i + 1] == rest[i] && events[j + 1] == rest[j];
      }
      RunKeepsOwnership(s', rest);
    }
  }

  /**
   Started from the cluster's worker list, a trace that submits each id at
   most once keeps every id in at most one worker's set.
   */
  lemma SubmittedOnceOwnedOnce(workers: seq<Uuid>, events: seq<Event>)
    requires AdmissibleTrace(InitChannels(workers), events)
    requires forall i, j :: 0 <= i < j < |events| && events[i].Submitted? && events[j].Submitted? ==>
      events[i].cmdlet.cmdletId != events[j].cmdlet.cmdletId
    ensures SingleOwner(Run(InitChannels(workers), events))
  {
    var s := InitChannels(workers);
    RunKeepsOwnership(s, events);
  }

  lemma SameOwner(s: Service, id: CmdletId, u: Uuid, v: Uuid)
    requires SingleOwner(s)
    requires u in s.scheduledCmdlets && id in s.scheduledCmdlets[u]
    requires v in s.scheduledCmdlets && id in s.scheduledCmdlets[v]
    ensures u == v
  {
  }

  /** Under single ownership, `stop` publishes at most one `StopCmdlet`. */
  lemma StopAtMostOnce(s: Service, entries: seq<Uuid>, id: CmdletId)
    requires Valid(s) && SingleOwner(s) && EnumeratesKeys(entries, s.scheduledCmdlets.Keys)
    ensures |Stop(s, entries, id).state.published| <= |s.published| + 1
  {
    var out := Stop(s, entries, id).state.published[|s.published|..];
    if |out| > 1 {
      SameOwner(s, id, out[0].worker, out[1].worker);
      assert false;
    }
  }

  // ---------------------------------------------------------------------
  // Status forwarding and attribute changes
  // ---------------------------------------------------------------------

  /** The payloads of the trace's status deliveries, in order. */
  function StatusPayloads(events: seq<Event>): seq<StatusMessage>
    decreases |events|
  {
    if |events| == 0 then []
    else (if events[0].StatusReceived? then [events[0].delivery.messageObject] else []) + StatusPayloads(events[1..])
  }

  /** One event adds to the manager's status updates exactly the payload it delivers. */
  lemma ApplyForwardsStatus(s: Service, e: Event)
    requires Admissible(s, e)
    ensures Apply(s, e).state.statusUpdates ==
      s.statusUpdates + (if e.StatusReceived? then [e.delivery.messageObject] else [])
  {
    match e
    case Cancelled(id, entries) =>
    case Submitted(cmdlet, members, draw) =>
    case _ =>
  }

  /** The manager receives every delivered status message exactly once, unchanged and in delivery order, and nothing else. */
  lemma {:induction false} StatusFanIn(s: Service, events: seq<Event>)
    requires AdmissibleTrace(s, events)
    ensures Run(s, events).statusUpdates == s.statusUpdates + StatusPayloads(events)
    decreases |events|
  {
    if |events| > 0 {
      var s' := Apply(s, events[0]).state;
      ApplyForwardsStatus(s, events[0]);
      StatusFanIn(s', events[1..]);
      assert Run(s, events) == Run(s', events[1..]);
      assert StatusPayloads(events) ==
        (if events[0].StatusReceived? then [events[0].delivery.messageObject] else []) + StatusPayloads(events[1..]);
    }
  }

  function WithoutAttributeChanges(events: seq<Event>): (r: seq<Event>)
    ensures forall i :: 0 <= i < |r| ==> !r[i].AttributesChanged?
    decreases |events|
  {
    if |events| == 0 then []
    else if events[0].AttributesChanged? then WithoutAttributeChanges(events[1..])
    else [events[0]] + WithoutAttributeChanges(events[1..])
  }

  /** Attribute-change notifications can be dropped from any trace without changing its outcome. */
  lemma {:induction false} AttributeChangesInvisible(s: Service, events: seq<Event>)
    requires AdmissibleTrace(s, events)
    ensures AdmissibleTrace(s, WithoutAttributeChanges(events))
    ensures Run(s, WithoutAttributeChanges(events)) == Run(s, events)
    decreases |events|
  {
    if |events| > 0 {
      AttributeChangesInvisible(Apply(s, events[0]).state, events[1..]);
      if !events[0].AttributesChanged? {
        var filtered := WithoutAttributeChanges(events);
        assert filtered[0] == events[0] && filtered[1..] == WithoutAttributeChanges(events[1..]);
      }
    }
  }

  // ---------------------------------------------------------------------
  // Membership
  // ---------------------------------------------------------------------

  /** A second join notification for the same worker changes nothing. */
  lemma MemberAddedIdempotent(s: Service, uuid: Uuid)
    ensures MemberAdded(MemberAdded(s, uuid), uuid) == MemberAdded(s, uuid)
    ensures uuid in MemberAdded(s, uuid).masterToWorkers
  {
  }

  /**
   A departed worker keeps its cmdlets: `stop` for one of them still
   publishes, on the worker's now-destroyed topic.
   */
  lemma DepartedWorkerStillStopped(s: Service, uuid: Uuid, entries: seq<Uuid>, id: CmdletId)
    requires Valid(s) && uuid in s.scheduledCmdlets && id in s.scheduledCmdlets[uuid]
    requires EnumeratesKeys(entries, s.scheduledCmdlets.Keys)
    ensures var s' := MemberRemoved(s, uuid);
      var r := Stop(s', entries, id);
      && r.Done?
      && exists k :: |s'.published| <= k < |r.state.published|
           && r.state.published[k] == Publication(uuid, s.masterToWorkers[uuid].(destroyed := true), StopCmdlet(id))
  {
    var s' := MemberRemoved(s, uuid);
    var r := Stop(s', entries, id);
    var out := r.state.published[|s'.published|..];
    var k :| 0 <= k < |out| && out[k].worker == uuid;
    assert r.state.published[|s'.published| + k] == out[k];
  }

  /**
   A departed worker stays selectable: for the draw equal to its position
   in the key array, `execute` launches the cmdlet on its destroyed topic.
   */
  lemma DepartedWorkerStillSelected(s: Service, uuid: Uuid, members: seq<Uuid>, i: nat, cmdlet: LaunchCmdlet)
    requires Valid(s) && EnumeratesKeys(members, s.masterToWorkers.Keys)
    requires i < |members| && members[i] == uuid && InIntRange(i)
    ensures var s' := MemberRemoved(s, uuid);
      var r := Execute(s', members, i, cmdlet);
      && r.Done?
      && r.state.published == s'.published + [Publication(uuid, s.masterToWorkers[uuid].(destroyed := true), Launch(cmdlet))]
  {
    var s' := MemberRemoved(s, uuid);
    assert s'.masterToWorkers.Keys == s.masterToWorkers.Keys;
    assert Rem(i, |members|) == i;
    assert uuid in s'.scheduledCmdlets;
  }

  /**
   `canAcceptMore` reads the cluster, not the registry. The cluster's
   worker list is an input of the model, not derived from the events: once
   the only worker has left, that list is taken to be empty, so
   `canAcceptMore` refuses work, although `execute` on the registry still
   dispatches to the departed worker.
   */
  lemma CanAcceptMoreIgnoresRegistry(uuid: Uuid, cmdlet: LaunchCmdlet)
    ensures var s := MemberRemoved(InitChannels([uuid]), uuid);
      && !CanAcceptMore([])
      && Execute(s, [uuid], 0, cmdlet).Done?
  {
    var s := MemberRemoved(InitChannels([uuid]), uuid);
    assert uuid in s.masterToWorkers;
  }

  // ---------------------------------------------------------------------
  // The negative index
  // ---------------------------------------------------------------------

  /**
   With two registered workers, the draw -1 (one `nextInt()` can return)
   makes `execute` throw instead of dispatching.
   */
  lemma NegativeDrawThrows(a: Uuid, b: Uuid, cmdlet: LaunchCmdlet)
    requires a != b
    ensures Execute(InitChannels([a, b]), [a, b], -1, cmdlet) == Threw(IndexOutOfBounds(-1), InitChannels([a, b]))
  {
    assert Rem(-1, 2) == -1;
  }

  /** The corrected dispatch succeeds for every draw once a worker is registered, and keeps the invariants. */
  lemma CorrectedDispatchKeepsInvariants(s: Service, members: seq<Uuid>, draw: int, cmdlet: LaunchCmdlet)
    requires Valid(s) && SingleOwner(s) && !Tracked(s, cmdlet.cmdletId)
    requires EnumeratesKeys(members, s.masterToWorkers.Keys) && s.masterToWorkers != map[]
    ensures ExecuteCorrected(s, members, draw, cmdlet).Done?
    ensures Valid(ExecuteCorrected(s, members, draw, cmdlet).state)
    ensures SingleOwner(ExecuteCorrected(s, members, draw, cmdlet).state)
  {
    var r := ExecuteCorrected(s, members, draw, cmdlet);
    var w := members[draw % |members|];
    forall u, v, id | u in r.state.scheduledCmdlets && v in r.state.scheduledCmdlets
      && id in r.state.scheduledCmdlets[u] && id in r.state.scheduledCmdlets[v]
      ensures u == v
    {
      if id != cmdlet.cmdletId {
        assert id in s.scheduledCmdlets[u] && id in s.scheduledCmdlets[v];
      }
    }
  }
}
