/**
 The cluster-routed cmdlet executor: a registry of worker topics
 (`masterToWorkers`), the ids of the cmdlets launched on each worker
 (`scheduledCmdlets`), the messages published to worker topics, and the
 status messages forwarded to the cmdlet manager. Every operation is a pure
 transition on an immutable `Service` value.

 Hazelcast is reduced to what the executor observes of it: publishing on a
 topic appends to `published`, destroying a topic sets its `destroyed` flag,
 and the cluster's worker list is a parameter. `HashMap` iteration order is
 a parameter that must enumerate the map's keys, and `new Random().nextInt()`
 is the parameter `draw`, any Java `int`.
 */
module HazelcastExecutor {
  import opened JavaLang

  type Uuid = string
  type CmdletId = int

  const WORKER_TOPIC_PREFIX: string := "worker_"
  const STATUS_TOPIC: string := "status_topic"

  /** A launch request; the task descriptor is opaque to the executor. */
  datatype LaunchCmdlet = LaunchCmdlet(cmdletId: CmdletId, task: string)

  /** A worker's report on a cmdlet; opaque to the executor. */
  datatype StatusMessage = StatusMessage(cmdletId: CmdletId, report: string)

  /** What the status topic hands its listener: the payload and the member that published it. */
  datatype Delivery = Delivery(messageObject: StatusMessage, publisher: Uuid)

  datatype WorkerMessage = Launch(cmdlet: LaunchCmdlet) | StopCmdlet(cmdletId: CmdletId)

  datatype Topic = Topic(name: string, destroyed: bool)

  /** A message published on `worker`'s topic, with the topic as it was when published. */
  datatype Publication = Publication(worker: Uuid, topic: Topic, message: WorkerMessage)

  datatype Service = Service(
    masterToWorkers: map<Uuid, Topic>,
    scheduledCmdlets: map<Uuid, set<CmdletId>>,
    published: seq<Publication>,
    statusUpdates: seq<StatusMessage>)

  /** The exceptions the executor's operations can throw. */
  datatype Fault =
    | ArithmeticDivideByZero
    | IndexOutOfBounds(index: int)
    | NullPointer(worker: Uuid)

  /** The outcome of an operation: the new state, or the exception and the state when it was thrown. */
  datatype Step = Done(state: Service) | Threw(fault: Fault, state: Service)

  function WorkerTopic(uuid: Uuid): Topic {
    Topic(WORKER_TOPIC_PREFIX + uuid, false)
  }

  /**
   The registry invariant: both maps have the same workers, and each
   worker's topic is the one named after it.
   */
  predicate Valid(s: Service) {
    && s.masterToWorkers.Keys == s.scheduledCmdlets.Keys
    && forall u :: u in s.masterToWorkers ==> s.masterToWorkers[u].name == WORKER_TOPIC_PREFIX + u
  }

  /** The state the constructor creates before seeding the channels. */
  function NewService(): Service {
    Service(map[], map[], [], [])
  }

  /** `masterToWorkers.put(uuid, topic)` and `scheduledCmdlets.put(uuid, new HashSet())`. */
  function Register(s: Service, uuid: Uuid): (r: Service)
    ensures r.masterToWorkers.Keys == s.masterToWorkers.Keys + {uuid}
    ensures r.scheduledCmdlets.Keys == s.scheduledCmdlets.Keys + {uuid}
    ensures r.masterToWorkers[uuid] == WorkerTopic(uuid) && r.scheduledCmdlets[uuid] == {}
    ensures forall u :: u in s.masterToWorkers && u != uuid ==> r.masterToWorkers[u] == s.masterToWorkers[u]
    ensures forall u :: u in s.scheduledCmdlets && u != uuid ==> r.scheduledCmdlets[u] == s.scheduledCmdlets[u]
    ensures r.published == s.published && r.statusUpdates == s.statusUpdates
    ensures Valid(s) ==> Valid(r)
  {
    s.(masterToWorkers := s.masterToWorkers[uuid := WorkerTopic(uuid)],
       scheduledCmdlets := s.scheduledCmdlets[uuid := {}])
  }

  // ---------------------------------------------------------------------
  // initChannels
  // ---------------------------------------------------------------------

  /** Registers each of `workers` in turn; a worker listed again is registered afresh. */
  function RegisterAll(s: Service, workers: seq<Uuid>): (r: Service)
    ensures forall u :: u in r.masterToWorkers <==> u in s.masterToWorkers || u in workers
    ensures forall u :: u in r.scheduledCmdlets <==> u in s.scheduledCmdlets || u in workers
    ensures forall w :: w in workers ==> r.masterToWorkers[w] == WorkerTopic(w) && r.scheduledCmdlets[w] == {}
    ensures forall u :: u in s.masterToWorkers && u !in workers ==> r.masterToWorkers[u] == s.masterToWorkers[u]
    ensures forall u :: u in s.scheduledCmdlets && u !in workers ==> r.scheduledCmdlets[u] == s.scheduledCmdlets[u]
    ensures r.published == s.published && r.statusUpdates == s.statusUpdates
    decreases |workers|
  {
    if |workers| == 0 then s
    else
      var r := RegisterAll(Register(s, workers[0]), workers[1..]);
      assert forall w :: w in workers ==> w == workers[0] || w in workers[1..];
      r
  }

  /**
   `initChannels()` on a new service: every worker of the cluster's list
   has a fresh topic and an empty cmdlet set, and there is nothing else.
   */
  function InitChannels(workers: seq<Uuid>): (s: Service)
    ensures Valid(s)
    ensures forall u :: u in s.masterToWorkers <==> u in workers
    ensures forall w :: w in s.scheduledCmdlets ==> s.scheduledCmdlets[w] == {}
    ensures forall w :: w in s.masterToWorkers ==> !s.masterToWorkers[w].destroyed
    ensures s.published == [] && s.statusUpdates == []
  {
    RegisterAll(NewService(), workers)
  }

  // ---------------------------------------------------------------------
  // isLocalService, canAcceptMore
  // ---------------------------------------------------------------------

  /** This executor always dispatches to the cluster. */
  function IsLocalService(): (r: bool)
    ensures !r
  {
    false
  }

  /**
   `canAcceptMore()` consults the cluster's current worker list, not the
   registry: it holds iff that list is non-empty.
   */
  function CanAcceptMore(workerMembers: seq<Uuid>): (r: bool)
    ensures r <==> workerMembers != []
  {
    |workerMembers| > 0
  }

  // ---------------------------------------------------------------------
  // execute
  // ---------------------------------------------------------------------

  /** Publishing on `worker`'s topic: one more message in the log, on the topic as it is now; nothing else changes. */
  function Publish(s: Service, worker: Uuid, message: WorkerMessage): (r: Service)
    requires worker in s.masterToWorkers
    ensures |r.published| == |s.published| + 1 && r.published[..|s.published|] == s.published
    ensures r.published[|s.published|] == Publication(worker, s.masterToWorkers[worker], message)
    ensures r.masterToWorkers == s.masterToWorkers && r.scheduledCmdlets == s.scheduledCmdlets
    ensures r.statusUpdates == s.statusUpdates
  {
    s.(published := s.published + [Publication(worker, s.masterToWorkers[worker], message)])
  }

  /**
   `s'` is `s` after `cmdlet` was launched on `worker`: one launch published
   on that worker's topic, its id added to that worker's set only, and
   nothing else changed.
   */
  ghost predicate LaunchedOn(s: Service, s': Service, worker: Uuid, cmdlet: LaunchCmdlet) {
    && worker in s.masterToWorkers && worker in s.scheduledCmdlets
    && s'.masterToWorkers == s.masterToWorkers
    && s'.published == s.published + [Publication(worker, s.masterToWorkers[worker], Launch(cmdlet))]
    && s'.scheduledCmdlets.Keys == s.scheduledCmdlets.Keys
    && s'.scheduledCmdlets[worker] == s.scheduledCmdlets[worker] + {cmdlet.cmdletId}
    && (forall u :: u in s.scheduledCmdlets && u != worker ==> s'.scheduledCmdlets[u] == s.scheduledCmdlets[u])
    && s'.statusUpdates == s.statusUpdates
  }

  /** Publishes the launch on `worker`'s topic, then records the id in its set. */
  function Assign(s: Service, worker: Uuid, cmdlet: LaunchCmdlet): (r: Step)
    requires worker in s.masterToWorkers
    ensures r.Done? <==> worker in s.scheduledCmdlets
    ensures r.Done? ==> LaunchedOn(s, r.state, worker, cmdlet)
    ensures r.Threw? ==> r.fault == NullPointer(worker) && r.state == Publish(s, worker, Launch(cmdlet))
  {
    var s1 := Publish(s, worker, Launch(cmdlet));
    if worker !in s1.scheduledCmdlets then Threw(NullPointer(worker), s1)
    else
      var cmdlets := s1.scheduledCmdlets[worker];
      Done(s1.(scheduledCmdlets := s1.scheduledCmdlets[worker := cmdlets + {cmdlet.cmdletId}]))
  }

  /**
   `execute(cmdlet)`: the worker at index `draw % members.length` (Java's
   remainder) of the registry's key array. With no registered worker the
   remainder divides by zero; a negative draw that is not a multiple of the
   worker count gives a negative index. Otherwise the launch goes to exactly
   the chosen worker.
   */
  function Execute(s: Service, members: seq<Uuid>, draw: int, cmdlet: LaunchCmdlet): (r: Step)
    requires EnumeratesKeys(members, s.masterToWorkers.Keys)
    requires InIntRange(draw)
    ensures r == Threw(ArithmeticDivideByZero, s) <==> s.masterToWorkers == map[]
    ensures r.Threw? && r.fault.IndexOutOfBounds? <==>
      s.masterToWorkers != map[] && draw < 0 && (-draw) % |members| != 0
    ensures r.Done? ==>
      |members| > 0 && 0 <= Rem(draw, |members|) && LaunchedOn(s, r.state, members[Rem(draw, |members|)], cmdlet)
    ensures Valid(s) ==> !(r.Threw? && r.fault.NullPointer?)
    ensures r.Threw? && !r.fault.NullPointer? ==> r.state == s
    ensures Valid(s) ==> (r.Done? <==> s.masterToWorkers != map[] && (draw >= 0 || (-draw) % |members| == 0))
  {
    if |members| == 0 then
      assert s.masterToWorkers.Keys == {};
      Threw(ArithmeticDivideByZero, s)
    else
      assert members[0] in s.masterToWorkers;
      var index := Rem(draw, |members|);
      if index < 0 then Threw(IndexOutOfBounds(index), s)
      else Assign(s, members[index], cmdlet)
  }

  /**
   Dispatch with an index in `[0, members.length)`, as `Math.floorMod` or
   `nextInt(members.length)` would give: it fails only when no worker is
   registered.
   */
  function ExecuteCorrected(s: Service, members: seq<Uuid>, draw: int, cmdlet: LaunchCmdlet): (r: Step)
    requires EnumeratesKeys(members, s.masterToWorkers.Keys)
    requires Valid(s)
    ensures r.Threw? <==> s.masterToWorkers == map[]
    ensures r.Threw? ==> r == Threw(ArithmeticDivideByZero, s)
    ensures r.Done? ==> |members| > 0 && LaunchedOn(s, r.state, members[draw % |members|], cmdlet)
  {
    if |members| == 0 then
      assert s.masterToWorkers.Keys == {};
      Threw(ArithmeticDivideByZero, s)
    else
      assert members[0] in s.masterToWorkers;
      Assign(s, members[draw % |members|], cmdlet)
  }

  // ---------------------------------------------------------------------
  // stop
  // ---------------------------------------------------------------------

  /**
   The messages `out` are a `StopCmdlet(id)` to each worker of `among` whose
   set in `scheduled` holds `id`: each on that worker's topic, each worker once.
   */
  ghost predicate StopsExactly(out: seq<Publication>, scheduled: map<Uuid, set<CmdletId>>,
                               topics: map<Uuid, Topic>, id: CmdletId, among: seq<Uuid>) {
    && (forall k :: 0 <= k < |out| ==>
          && out[k].message == StopCmdlet(id)
          && out[k].worker in among
          && out[k].worker in scheduled && id in scheduled[out[k].worker]
          && out[k].worker in topics && out[k].topic == topics[out[k].worker])
    && (forall u :: u in among && u in scheduled && id in scheduled[u] ==>
          exists k :: 0 <= k < |out| && out[k].worker == u)
    && (forall k, l :: 0 <= k < l < |out| ==> out[k].worker != out[l].worker)
  }

  /** The loop of `stop` over the entries `order` of `scheduledCmdlets`. */
  function StopFrom(s: Service, order: seq<Uuid>, id: CmdletId): (r: Step)
    requires forall i :: 0 <= i < |order| ==> order[i] in s.scheduledCmdlets
    requires forall i, j :: 0 <= i < j < |order| ==> order[i] != order[j]
    ensures r.state.masterToWorkers == s.masterToWorkers
    ensures r.state.scheduledCmdlets == s.scheduledCmdlets
    ensures r.state.statusUpdates == s.statusUpdates
    ensures |s.published| <= |r.state.published| && r.state.published[..|s.published|] == s.published
    ensures r.Done? ==>
      StopsExactly(r.state.published[|s.published|..], s.scheduledCmdlets, s.masterToWorkers, id, order)
    ensures r.Threw? <==>
      exists i :: 0 <= i < |order| && id in s.scheduledCmdlets[order[i]] && order[i] !in s.masterToWorkers
    ensures r.Threw? ==> r.fault.NullPointer?
    decreases |order|
  {
    if |order| == 0 then Done(s)
    else
      var w := order[0];
      if id in s.scheduledCmdlets[w] then
        if w !in s.masterToWorkers then Threw(NullPointer(w), s)
        else
          var p := Publication(w, s.masterToWorkers[w], StopCmdlet(id));
          var s1 := Publish(s, w, StopCmdlet(id));
          var r := StopFrom(s1, order[1..], id);
          var all := r.state.published;
          assert all[..|s.published|] == all[..|s1.published|][..|s.published|];
          assert all[|s.published|..] == [p] + all[|s1.published|..];
          if r.Done? then
            StopsCons(p, all[|s1.published|..], s.scheduledCmdlets, s.masterToWorkers, id, order);
            r
          else r
      else
        var r := StopFrom(s, order[1..], id);
        if r.Done? then
          StopsSkip(r.state.published[|s.published|..], s.scheduledCmdlets, s.masterToWorkers, id, order);
          r
        else r
  }

  lemma StopsCons(p: Publication, rest: seq<Publication>, scheduled: map<Uuid, set<CmdletId>>,
                  topics: map<Uuid, Topic>, id: CmdletId, order: seq<Uuid>)
    requires |order| > 0 && forall i, j :: 0 <= i < j < |order| ==> order[i] != order[j]
    requires order[0] in scheduled && id in scheduled[order[0]] && order[0] in topics
    requires p == Publication(order[0], topics[order[0]], StopCmdlet(id))
    requires StopsExactly(rest, scheduled, topics, id, order[1..])
    ensures StopsExactly([p] + rest, scheduled, topics, id, order)
  {
    var out := [p] + rest;
    forall u | u in order && u in scheduled && id in scheduled[u]
      ensures exists k :: 0 <= k < |out| && out[k].worker == u
    {
      if u == order[0] {
        assert out[0].worker == u;
      } else {
        assert u in order[1..];
        var k :| 0 <= k < |rest| && rest[k].worker == u;
        assert out[k + 1].worker == u;
      }
    }
    forall k | 0 <= k < |rest| ensures rest[k].worker != order[0] {
      assert rest[k].worker in order[1..];
    }
  }

  lemma StopsSkip(out: seq<Publication>, scheduled: map<Uuid, set<CmdletId>>,
                  topics: map<Uuid, Topic>, id: CmdletId, order: seq<Uuid>)
    requires |order| > 0 && order[0] in scheduled && id !in scheduled[order[0]]
    requires StopsExactly(out, scheduled, topics, id, order[1..])
    ensures StopsExactly(out, scheduled, topics, id, order)
  {
    forall u | u in order && u in scheduled && id in scheduled[u]
      ensures exists k :: 0 <= k < |out| && out[k].worker == u
    {
      assert u in order[1..];
    }
  }

  /**
   `stop(cmdletId)`: a `StopCmdlet` to exactly those workers whose set holds
   the id, once each, with no set changed; nothing at all when no set holds
   it. On a valid registry it cannot throw.
   */
  function Stop(s: Service, order: seq<Uuid>, id: CmdletId): (r: Step)
    requires EnumeratesKeys(order, s.scheduledCmdlets.Keys)
    ensures r.state.masterToWorkers == s.masterToWorkers
    ensures r.state.scheduledCmdlets == s.scheduledCmdlets
    ensures r.state.statusUpdates == s.statusUpdates
    ensures |s.published| <= |r.state.published| && r.state.published[..|s.published|] == s.published
    ensures r.Done? ==>
      StopsExactly(r.state.published[|s.published|..], s.scheduledCmdlets, s.masterToWorkers, id, order)
    ensures Valid(s) ==> r.Done?
    ensures (forall u :: u in s.scheduledCmdlets ==> id !in s.scheduledCmdlets[u]) ==> r == Done(s)
  {
    var r := StopFrom(s, order, id);
    NoHolderNoStop(s, order, id);
    r
  }

  lemma {:induction false} NoHolderNoStop(s: Service, order: seq<Uuid>, id: CmdletId)
    requires forall i :: 0 <= i < |order| ==> order[i] in s.scheduledCmdlets
    requires forall i, j :: 0 <= i < j < |order| ==> order[i] != order[j]
    ensures (forall u :: u in s.scheduledCmdlets ==> id !in s.scheduledCmdlets[u]) ==> StopFrom(s, order, id) == Done(s)
    decreases |order|
  {
    if |order| > 0 {
      NoHolderNoStop(s, order[1..], id);
    }
  }

  // ---------------------------------------------------------------------
  // Membership listener
  // ---------------------------------------------------------------------

  /**
   `memberAdded`: an unknown worker gets a fresh topic and an empty cmdlet
   set; a known one changes nothing. No other entry changes.
   */
  function MemberAdded(s: Service, uuid: Uuid): (r: Service)
    ensures uuid in s.masterToWorkers ==> r == s
    ensures uuid !in s.masterToWorkers ==>
      && r.masterToWorkers.Keys == s.masterToWorkers.Keys + {uuid}
      && r.scheduledCmdlets.Keys == s.scheduledCmdlets.Keys + {uuid}
      && r.masterToWorkers[uuid] == WorkerTopic(uuid) && r.scheduledCmdlets[uuid] == {}
      && (forall u :: u in s.masterToWorkers ==> r.masterToWorkers[u] == s.masterToWorkers[u])
      && (forall u :: u in s.scheduledCmdlets && u != uuid ==> r.scheduledCmdlets[u] == s.scheduledCmdlets[u])
      && r.published == s.published && r.statusUpdates == s.statusUpdates
  {
    if uuid !in s.masterToWorkers then Register(s, uuid) else s
  }

  /**
   `memberRemoved`: destroys a known worker's topic and nothing else; both
   map entries stay, so the worker keeps its cmdlets and remains selectable.
   An unknown worker changes nothing.
   */
  function MemberRemoved(s: Service, uuid: Uuid): (r: Service)
    ensures r.masterToWorkers.Keys == s.masterToWorkers.Keys
    ensures r.scheduledCmdlets == s.scheduledCmdlets
    ensures r.published == s.published && r.statusUpdates == s.statusUpdates
    ensures uuid in s.masterToWorkers ==>
      r.masterToWorkers[uuid] == s.masterToWorkers[uuid].(destroyed := true)
    ensures forall u :: u in s.masterToWorkers && u != uuid ==> r.masterToWorkers[u] == s.masterToWorkers[u]
    ensures uuid !in s.masterToWorkers ==> r == s
  {
    if uuid in s.masterToWorkers then
      s.(masterToWorkers := s.masterToWorkers[uuid := s.masterToWorkers[uuid].(destroyed := true)])
    else s
  }

  /** `memberAttributeChanged` does nothing. */
  function MemberAttributeChanged(s: Service, uuid: Uuid): (r: Service)
    ensures r == s
  {
    s
  }

  // ---------------------------------------------------------------------
  // Status forwarding
  // ---------------------------------------------------------------------

  /** `onStatusMessage`: the message goes to the cmdlet manager unchanged; nothing else changes. */
  function OnStatusMessage(s: Service, message: StatusMessage): (r: Service)
    ensures r.statusUpdates == s.statusUpdates + [message]
    ensures r.masterToWorkers == s.masterToWorkers && r.scheduledCmdlets == s.scheduledCmdlets
    ensures r.published == s.published
  {
    s.(statusUpdates := s.statusUpdates + [message])
  }

  /** The status topic's listener: forwards the delivered payload, whoever published it. */
  function OnMessage(s: Service, delivery: Delivery): (r: Service)
    ensures r.statusUpdates == s.statusUpdates + [delivery.messageObject]
    ensures r.masterToWorkers == s.masterToWorkers && r.scheduledCmdlets == s.scheduledCmdlets
    ensures r.published == s.published
  {
    OnStatusMessage(s, delivery.messageObject)
  }
}
