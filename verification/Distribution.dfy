/** How one collector hands its policy and upstream to the filters of its proxy, over shared queues:
    the collector's callbacks, and every interleaving of their host calls with the filters' callbacks. */
module Distribution {
  import opened Bytes
  import PolicyResolution

  type Policy = PolicyResolution.Policy
  type QueueId = nat
  type Uuid = seq<Byte>

  datatype UpstreamConfig = UpstreamConfig(cluster: string, deploymentName: string, apiKey: Option<string>)

  datatype Message =
    | PolicyUpdate(id: string, policy: Policy)
    | UpstreamUpdate(upstream: Option<UpstreamConfig>)

  /** The two globals of a plugin instance. */
  datatype View = View(policy: Option<(string, Policy)>, upstream: Option<UpstreamConfig>)

  const BLANK := View(None, None)

  function Apply(m: Message, v: View): View {
    match m
    case PolicyUpdate(id, policy) => v.(policy := Some((id, policy)))
    case UpstreamUpdate(upstream) => v.(upstream := upstream)
  }

  /** What a filter arrives at once it has handled these messages. */
  function Replay(messages: seq<Message>, v: View): View {
    if messages == [] then v else Replay(messages[1..], Apply(messages[0], v))
  }

  lemma {:induction false} ReplaySnoc(messages: seq<Message>, m: Message, v: View)
    ensures Replay(messages + [m], v) == Apply(m, Replay(messages, v))
  {
    if messages == [] {
      assert messages + [m] == [m];
      assert Replay([m], v) == Replay([m][1..], Apply(m, v));
    } else {
      assert (messages + [m])[1..] == messages[1..] + [m];
      ReplaySnoc(messages[1..], m, Apply(messages[0], v));
    }
  }

  // ----- What the collector and the host hold

  /** The collector's globals, the queues of the filters that registered with it, and the contents of
      every queue that exists. */
  datatype Hub = Hub(view: View, registered: seq<QueueId>, queues: map<QueueId, seq<Message>>)

  /** `enqueue_shared_queue`; nothing happens when the queue is not found. */
  function Deliver(queues: map<QueueId, seq<Message>>, queue: QueueId, m: Message): map<QueueId, seq<Message>> {
    if queue in queues then queues[queue := queues[queue] + [m]] else queues
  }

  function RemoveAt(s: seq<QueueId>, i: nat): seq<QueueId>
    requires i < |s|
  {
    s[..i] + s[i + 1..]
  }

  /** Removes the last index first. */
  function RemoveAll(s: seq<QueueId>, indices: seq<nat>): seq<QueueId>
    requires Increasing(indices, |s|)
    decreases |indices|
  {
    if indices == [] then s
    else RemoveAll(RemoveAt(s, indices[|indices| - 1]), indices[..|indices| - 1])
  }

  // ----- The collector's work, one host call at a time

  /** A callback in progress: sending a message to the registered queues, then storing a policy, then
      perhaps sending a second message; or sending a new filter its first messages and then adding it. */
  datatype Work =
    | Idle
    | Announcing(message: Message, next: nat, bad: seq<nat>, store: Option<(string, Policy)>, later: Option<Message>)
    | Registering(queue: QueueId, pending: seq<Message>)

  function Broadcast(m: Message): Work {
    Announcing(m, 0, [], None, None)
  }

  predicate Sensible(hub: Hub, work: Work) {
    work.Announcing? ==> work.next <= |hub.registered| && Increasing(work.bad, work.next)
  }

  function Stored(v: View, store: Option<(string, Policy)>): View {
    if store.Some? then v.(policy := store) else v
  }

  function Advance(hub: Hub, work: Work): (Hub, Work)
    requires Sensible(hub, work)
  {
    match work
    case Idle => (hub, Idle)
    case Announcing(m, next, bad, store, later) =>
      if next < |hub.registered| then
        var queue := hub.registered[next];
        if queue in hub.queues then
          (hub.(queues := Deliver(hub.queues, queue, m)), Announcing(m, next + 1, bad, store, later))
        else
          (hub, Announcing(m, next + 1, bad + [next], store, later))
      else
        (hub.(registered := RemoveAll(hub.registered, bad), view := Stored(hub.view, store)),
         if later.Some? then Broadcast(later.value) else Idle)
    case Registering(queue, pending) =>
      if pending == [] then (hub.(registered := hub.registered + [queue]), Idle)
      else (hub.(queues := Deliver(hub.queues, queue, pending[0])), Registering(queue, pending[1..]))
  }

  /** A callback that nothing interrupts. */
  function Complete(hub: Hub, work: Work): Hub
    requires Sensible(hub, work)
    decreases work.Announcing? && work.later.Some?,
              if work.Announcing? then |hub.registered| - work.next + 1
              else if work.Registering? then |work.pending| + 1 else 0
  {
    if work.Idle? then hub else var (h, w) := Advance(hub, work); Complete(h, w)
  }

  /** `do_policy_update` */
  function PolicyWork(id: string, policy: Policy, later: Option<Message>): Work {
    Announcing(PolicyUpdate(id, policy), 0, [], Some((id, policy)), later)
  }

  /** A filter that registers gets the policy, if there is one, and the upstream. */
  function FirstMessages(v: View): seq<Message> {
    (if v.policy.Some? then [PolicyUpdate(v.policy.value.0, v.policy.value.1)] else []) + [UpstreamUpdate(v.upstream)]
  }

  datatype Mode = LocalCollector | Filter | DirectFilter

  datatype Config = Config(
    mode: Mode,
    group: string,
    upstreamCluster: Option<string>,
    deploymentName: Option<string>,
    apiKey: Option<string>,
    localPolicy: Option<Policy>)

  /** The upstream is replaced only when both the cluster and the deployment are given. */
  function ConfiguredUpstream(config: Config, v: View): Option<UpstreamConfig> {
    if config.upstreamCluster.Some? && config.deploymentName.Some? then
      Some(UpstreamConfig(config.upstreamCluster.value, config.deploymentName.value, config.apiKey))
    else v.upstream
  }

  /** What a later configuration of the collector announces. */
  function ConfigureWork(config: Config, v: View): Work {
    var upstream := ConfiguredUpstream(config, v);
    var later := if upstream != v.upstream && upstream.Some? then Some(UpstreamUpdate(upstream)) else None;
    if config.localPolicy.Some? then PolicyWork("local", config.localPolicy.value, later)
    else if later.Some? then Broadcast(later.value)
    else Idle
  }

  // ----- Every interleaving with the filters

  /** `waiting` is the queue on which filters register; a filter's queue is found by the filter's uuid. */
  datatype World = World(
    hub: Hub,
    work: Work,
    config: Option<Config>,
    waiting: seq<Uuid>,
    names: map<Uuid, QueueId>,
    filters: map<QueueId, View>,
    unused: QueueId)

  const START := World(Hub(BLANK, [], map[]), Idle, None, [], map[], map[], 0)

  /** `CollectorWorks` is one host call of the callback in progress. The last two steps are outside the
      protocol: the host refuses a message with a status other than not-found, and a filter is given an
      upstream or policy of its own. */
  datatype Step =
    | Configure(config: Config)
    | PolicyArrives(id: string, policy: Policy)
    | RegisterReady
    | CollectorWorks
    | FilterStarts(uuid: Uuid)
    | FilterReady(queue: QueueId)
    | FilterDies(queue: QueueId)
    | MessageRefused
    | FilterConfigured(queue: QueueId, config: Config)

  predicate Enabled(w: World, step: Step) {
    match step
    case Configure(config) => w.work.Idle? && (w.config.None? ==> config.mode == LocalCollector)
    case PolicyArrives(_, _) => w.work.Idle? && w.config.Some?
    case RegisterReady => w.work.Idle? && w.config.Some?
    case CollectorWorks => !w.work.Idle? && Sensible(w.hub, w.work)
    case FilterStarts(uuid) => |uuid| == 16 && uuid !in w.names
    case FilterReady(queue) => queue in w.filters && queue in w.hub.queues
    case FilterDies(queue) => queue in w.filters
    case MessageRefused =>
      (w.work.Announcing? && w.work.next < |w.hub.registered|) || (w.work.Registering? && w.work.pending != [])
    case FilterConfigured(queue, config) => queue in w.filters
  }

  /** The collector's `on_configure`, up to its first announcement: mode and group cannot change, and the
      first configuration announces nothing. */
  function Configured(hub: Hub, previous: Option<Config>, config: Config): (Hub, Work, Option<Config>) {
    var view := hub.view.(upstream := ConfiguredUpstream(config, hub.view));
    if previous.Some? && (previous.value.mode != config.mode || previous.value.group != config.group) then
      (hub, Idle, previous)
    else if previous.None? then
      (hub.(view := Stored(view, LocalPolicy(config))), Idle, Some(config))
    else
      (hub.(view := view), ConfigureWork(config, hub.view), Some(config))
  }

  function LocalPolicy(config: Config): Option<(string, Policy)> {
    if config.localPolicy.Some? then Some(("local", config.localPolicy.value)) else None
  }

  /** What the collector's `on_queue_ready` sends for the first registration that waits. */
  function RegistrationWork(waiting: seq<Uuid>, names: map<Uuid, QueueId>, v: View): Work {
    if waiting == [] || |waiting[0]| != 16 || waiting[0] !in names then Idle
    else Registering(names[waiting[0]], FirstMessages(v))
  }

  /** The refused message is logged and passed over, in an announcement and in a registration. */
  function Refused(work: Work): Work
    requires work.Announcing? || (work.Registering? && work.pending != [])
  {
    if work.Announcing? then work.(next := work.next + 1) else work.(pending := work.pending[1..])
  }

  function Next(w: World, step: Step): World
    requires Enabled(w, step)
  {
    match step
    case Configure(config) =>
      var (hub, work, latest) := Configured(w.hub, w.config, config);
      w.(hub := hub, work := work, config := latest)
    case PolicyArrives(id, policy) => w.(work := PolicyWork(id, policy, None))
    case RegisterReady =>
      w.(waiting := if w.waiting == [] then [] else w.waiting[1..],
         work := RegistrationWork(w.waiting, w.names, w.hub.view))
    case CollectorWorks => var (hub, work) := Advance(w.hub, w.work); w.(hub := hub, work := work)
    case FilterStarts(uuid) =>
      w.(hub := w.hub.(queues := w.hub.queues[w.unused := []]),
         names := w.names[uuid := w.unused],
         filters := w.filters[w.unused := BLANK],
         waiting := if w.config.Some? then w.waiting + [uuid] else w.waiting,
         unused := w.unused + 1)
    case FilterReady(queue) =>
      var messages := w.hub.queues[queue];
      if messages == [] then w
      else
        w.(hub := w.hub.(queues := w.hub.queues[queue := messages[1..]]),
           filters := w.filters[queue := Apply(messages[0], w.filters[queue])])
    case FilterDies(queue) =>
      w.(hub := w.hub.(queues := w.hub.queues - {queue}),
         names := map uuid | uuid in w.names && w.names[uuid] != queue :: w.names[uuid],
         filters := w.filters - {queue})
    case MessageRefused => w.(work := Refused(w.work))
    case FilterConfigured(queue, config) =>
      var v := w.filters[queue].(upstream := ConfiguredUpstream(config, w.filters[queue]));
      w.(filters := w.filters[queue := Stored(v, LocalPolicy(config))])
  }

  function Run(w: World, steps: seq<Step>): Option<World>
    decreases |steps|
  {
    if steps == [] then Some(w)
    else if !Enabled(w, steps[0]) then None
    else Run(Next(w, steps[0]), steps[1..])
  }

  predicate ByProtocol(step: Step) {
    !step.MessageRefused? && !step.FilterConfigured?
  }

  // ----- The invariant

  /** What is left of a filter's first messages: the policy, if any, before the upstream. */
  predicate Orderly(pending: seq<Message>) {
    || |pending| <= 1
    || (|pending| == 2 && pending[0].PolicyUpdate? && pending[1].UpstreamUpdate?)
  }

  ghost predicate WellFormed(w: World) {
    && Sensible(w.hub, w.work)
    && w.filters.Keys == w.hub.queues.Keys
    && (forall q :: q in w.hub.queues ==> q < w.unused)
    && (forall i :: 0 <= i < |w.hub.registered| ==> w.hub.registered[i] < w.unused)
    && (forall uuid :: uuid in w.names ==> w.names[uuid] in w.hub.queues)
    && (w.work.Registering? ==> w.work.queue < w.unused && Orderly(w.work.pending))
    && (w.work.Announcing?
        ==> && (forall k :: 0 <= k < |w.work.bad| ==> w.hub.registered[w.work.bad[k]] !in w.hub.queues)
            && (w.work.later.Some? ==> w.work.message.PolicyUpdate? && w.work.later.value.UpstreamUpdate?))
    && (w.config.None? ==> w.work.Idle? && w.hub.registered == [])
  }

  /** `told` is what the registered filters have been sent, leaving out the announcement in progress;
      what is still to be announced makes it the collector's view. */
  ghost predicate Due(hub: Hub, work: Work, told: View) {
    match work
    case Idle => hub.view == told
    case Announcing(m, _, _, store, later) =>
      Stored(hub.view, store) == if later.Some? then Apply(later.value, Apply(m, told)) else Apply(m, told)
    case Registering(_, pending) =>
      hub.view == told && forall k :: 0 <= k < |pending| ==> Apply(pending[k], told) == told
  }

  ghost predicate Reached(hub: Hub, work: Work, q: QueueId)
    requires Sensible(hub, work)
  {
    work.Announcing? && q in hub.registered[..work.next]
  }

  /** A registered filter's queue brings it to what it was told, and to the message being announced once
      that reached it; a filter being registered gets there with the messages it is still to be sent; and
      any other filter is as it started. */
  ghost predicate Heard(hub: Hub, work: Work, q: QueueId, filter: View, told: View)
    requires Sensible(hub, work) && q in hub.queues
  {
    var arrives := Replay(hub.queues[q], filter);
    if q in hub.registered then arrives == if Reached(hub, work, q) then Apply(work.message, told) else told
    else if work.Registering? && work.queue == q then Replay(work.pending, arrives) == told
    else hub.queues[q] == [] && filter == BLANK
  }

  ghost predicate Inv(w: World, told: View) {
    && WellFormed(w) && Due(w.hub, w.work, told)
    && forall q :: q in w.hub.queues ==> Heard(w.hub, w.work, q, w.filters[q], told)
  }

  lemma {:induction false} RemoveAllKeeps(s: seq<QueueId>, indices: seq<nat>, q: QueueId)
    requires Increasing(indices, |s|)
    ensures q in RemoveAll(s, indices) ==> q in s
    ensures q in s && (forall k :: 0 <= k < |indices| ==> s[indices[k]] != q) ==> q in RemoveAll(s, indices)
    decreases |indices|
  {
    if indices != [] {
      var last := indices[|indices| - 1];
      RemoveAllKeeps(RemoveAt(s, last), indices[..|indices| - 1], q);
    }
  }

  // ----- Every step keeps it

  lemma SendIsHeard(hub: Hub, work: Work, q: QueueId, filter: View, told: View)
    requires Sensible(hub, work) && work.Announcing? && work.next < |hub.registered|
    requires q in hub.queues && Heard(hub, work, q, filter, told)
    ensures var (hub', work') := Advance(hub, work);
      Sensible(hub', work') && q in hub'.queues && Heard(hub', work', q, filter, told)
  {
    var (hub', work') := Advance(hub, work);
    ReachesOneMore(hub, work, work', q);
    if q == hub.registered[work.next] {
      ReplaySnoc(hub.queues[q], work.message, filter);
    }
  }

  lemma SendKeeps(w: World, told: View)
    requires Inv(w, told) && w.work.Announcing? && w.work.next < |w.hub.registered|
    ensures Inv(Next(w, CollectorWorks), told)
  {
    var after := Next(w, CollectorWorks);
    forall q | q in after.hub.queues
      ensures Sensible(after.hub, after.work) && Heard(after.hub, after.work, q, after.filters[q], told)
    {
      SendIsHeard(w.hub, w.work, q, w.filters[q], told);
    }
  }

  lemma ReachesOneMore(hub: Hub, work: Work, after: Work, q: QueueId)
    requires work.Announcing? && work.next < |hub.registered| && after.Announcing? && after.next == work.next + 1
    requires Sensible(hub, work) && Sensible(hub, after)
    ensures Reached(hub, after, q) <==> Reached(hub, work, q) || q == hub.registered[work.next]
  {
    assert hub.registered[..after.next] == hub.registered[..work.next] + [hub.registered[work.next]];
  }

  lemma EndKeeps(w: World, told: View)
    requires Inv(w, told) && w.work.Announcing? && w.work.next == |w.hub.registered|
    ensures Inv(Next(w, CollectorWorks), Apply(w.work.message, told))
  {
    var after, now := Next(w, CollectorWorks), Apply(w.work.message, told);
    assert w.hub.registered[..w.work.next] == w.hub.registered;
    forall q | q in after.hub.queues ensures Heard(after.hub, after.work, q, after.filters[q], now) {
      assert Heard(w.hub, w.work, q, w.filters[q], told);
      RemoveAllKeeps(w.hub.registered, w.work.bad, q);
    }
    forall i | 0 <= i < |after.hub.registered| ensures after.hub.registered[i] < after.unused {
      RemoveAllKeeps(w.hub.registered, w.work.bad, after.hub.registered[i]);
      assert after.hub.registered[i] in w.hub.registered;
    }
  }

  lemma RegisteringKeeps(w: World, told: View)
    requires Inv(w, told) && w.work.Registering?
    ensures Inv(Next(w, CollectorWorks), told)
  {
    var after := Next(w, CollectorWorks);
    forall q | q in after.hub.queues ensures Heard(after.hub, after.work, q, after.filters[q], told) {
      assert Heard(w.hub, w.work, q, w.filters[q], told);
      if q == w.work.queue && w.work.pending != [] {
        ReplaySnoc(w.hub.queues[q], w.work.pending[0], w.filters[q]);
      }
    }
  }

  lemma RegistrationStarts(w: World, told: View)
    requires Inv(w, told) && Enabled(w, RegisterReady)
    ensures Inv(Next(w, RegisterReady), told)
  {
    var after := Next(w, RegisterReady);
    forall q | q in after.hub.queues ensures Heard(after.hub, after.work, q, after.filters[q], told) {
      assert Heard(w.hub, w.work, q, w.filters[q], told);
      FirstMessagesSuffice(w.hub.view);
    }
    FirstMessagesSuffice(w.hub.view);
  }

  /** The first messages bring a new filter to the collector's view, and change nothing for one that is
      there already. */
  lemma FirstMessagesSuffice(v: View)
    ensures Replay(FirstMessages(v), BLANK) == v
    ensures forall k :: 0 <= k < |FirstMessages(v)| ==> Apply(FirstMessages(v)[k], v) == v
  {
    var upstream := UpstreamUpdate(v.upstream);
    assert [] + [upstream] == [upstream];
    if v.policy.Some? {
      var policy := PolicyUpdate(v.policy.value.0, v.policy.value.1);
      ReplaySnoc([policy], upstream, BLANK);
      ReplaySnoc([], policy, BLANK);
      assert [] + [policy] == [policy];
    } else {
      ReplaySnoc([], upstream, BLANK);
    }
  }

  lemma CollectorStarts(w: World, told: View, step: Step) returns (now: View)
    requires Inv(w, told) && Enabled(w, step) && (step.Configure? || step.PolicyArrives?)
    ensures Inv(Next(w, step), now)
  {
    var after := Next(w, step);
    now := if w.config.None? then after.hub.view else told;
    forall q | q in after.hub.queues ensures Heard(after.hub, after.work, q, after.filters[q], now) {
      assert Heard(w.hub, w.work, q, w.filters[q], told);
    }
  }

  lemma FilterStartKeeps(w: World, told: View, uuid: Uuid)
    requires Inv(w, told) && Enabled(w, FilterStarts(uuid))
    ensures Inv(Next(w, FilterStarts(uuid)), told)
  {
    var after := Next(w, FilterStarts(uuid));
    forall q | q in after.hub.queues ensures Heard(after.hub, after.work, q, after.filters[q], told) {
      if q != w.unused {
        assert Heard(w.hub, w.work, q, w.filters[q], told);
      }
    }
  }

  lemma FilterReadyKeeps(w: World, told: View, queue: QueueId)
    requires Inv(w, told) && Enabled(w, FilterReady(queue))
    ensures Inv(Next(w, FilterReady(queue)), told)
  {
    var after := Next(w, FilterReady(queue));
    forall q | q in after.hub.queues ensures Heard(after.hub, after.work, q, after.filters[q], told) {
      assert Heard(w.hub, w.work, q, w.filters[q], told);
    }
  }

  lemma FilterDeathKeeps(w: World, told: View, queue: QueueId)
    requires Inv(w, told) && Enabled(w, FilterDies(queue))
    ensures Inv(Next(w, FilterDies(queue)), told)
  {
    var after := Next(w, FilterDies(queue));
    forall q | q in after.hub.queues ensures Heard(after.hub, after.work, q, after.filters[q], told) {
      assert Heard(w.hub, w.work, q, w.filters[q], told);
    }
  }

  lemma StepKeeps(w: World, told: View, step: Step) returns (now: View)
    requires Inv(w, told) && Enabled(w, step) && ByProtocol(step)
    ensures Inv(Next(w, step), now)
  {
    now := told;
    match step
    case Configure(_) => now := CollectorStarts(w, told, step);
    case PolicyArrives(_, _) => now := CollectorStarts(w, told, step);
    case RegisterReady => RegistrationStarts(w, told);
    case CollectorWorks =>
      if w.work.Registering? {
        RegisteringKeeps(w, told);
      } else if w.work.next < |w.hub.registered| {
        SendKeeps(w, told);
      } else {
        now := Apply(w.work.message, told);
        EndKeeps(w, told);
      }
    case FilterStarts(uuid) => FilterStartKeeps(w, told, uuid);
    case FilterReady(queue) => FilterReadyKeeps(w, told, queue);
    case FilterDies(queue) => FilterDeathKeeps(w, told, queue);
  }

  // ----- Convergence

  lemma {:induction false} RunKeeps(w: World, steps: seq<Step>, told: View) returns (now: View)
    requires Inv(w, told) && Run(w, steps).Some? && forall i :: 0 <= i < |steps| ==> ByProtocol(steps[i])
    ensures Inv(Run(w, steps).value, now)
    decreases |steps|
  {
    if steps == [] {
      now := told;
    } else {
      now := StepKeeps(w, told, steps[0]);
      now := RunKeeps(Next(w, steps[0]), steps[1..], now);
    }
  }

  /** A state that some run of the protocol reaches. */
  ghost predicate Reachable(w: World) {
    exists steps | Run(START, steps) == Some(w) :: forall i :: 0 <= i < |steps| ==> ByProtocol(steps[i])
  }

  lemma ReachableInv(w: World) returns (told: View)
    requires Reachable(w)
    ensures Inv(w, told)
  {
    var steps :| Run(START, steps) == Some(w) && forall i :: 0 <= i < |steps| ==> ByProtocol(steps[i]);
    told := RunKeeps(START, steps, BLANK);
  }

  /** A live filter arrives, after the messages in its queue, at the collector's policy and upstream. */
  predicate ConvergesOn(w: World, q: QueueId) {
    q in w.hub.queues && q in w.filters && Replay(w.hub.queues[q], w.filters[q]) == w.hub.view
  }

  /** Every live filter that registered does. */
  ghost predicate Converging(w: World) {
    forall q :: q in w.hub.queues && q in w.hub.registered ==> ConvergesOn(w, q)
  }

  /** The collector is never stuck in a callback, and between callbacks all registered filters converge
      on its view and all others are as they started. */
  lemma Converges(w: World)
    requires Reachable(w)
    ensures
      if w.work.Idle? then
        && Converging(w)
        && forall q :: q in w.hub.queues && q !in w.hub.registered
             ==> q in w.filters && w.hub.queues[q] == [] && w.filters[q] == BLANK
      else Enabled(w, CollectorWorks)
  {
    var told := ReachableInv(w);
    forall q | q in w.hub.queues ensures Heard(w.hub, w.work, q, w.filters[q], told) {
    }
  }

  /** Within an announcement each registered filter is bound for the state before it or after it. */
  lemma NoMixture(w: World) returns (told: View)
    requires Reachable(w) && w.work.Announcing?
    ensures Sensible(w.hub, w.work) && Due(w.hub, w.work, told)
    ensures forall q :: q in w.hub.queues && q in w.hub.registered
              ==> q in w.filters
                  && Replay(w.hub.queues[q], w.filters[q])
                     == if q in w.hub.registered[..w.work.next] then Apply(w.work.message, told) else told
  {
    told := ReachableInv(w);
    forall q | q in w.hub.queues ensures Heard(w.hub, w.work, q, w.filters[q], told) {
    }
  }

  function Repeated(step: Step, n: nat): seq<Step> {
    seq(n, i => step)
  }

  /** A filter that handles its whole queue then has the state its queue leads to, and nothing else
      changed. */
  lemma {:induction false} Drains(w: World, q: QueueId)
    requires q in w.filters && q in w.hub.queues
    ensures Run(w, Repeated(FilterReady(q), |w.hub.queues[q]|))
         == Some(w.(hub := w.hub.(queues := w.hub.queues[q := []]),
                    filters := w.filters[q := Replay(w.hub.queues[q], w.filters[q])]))
    decreases |w.hub.queues[q]|
  {
    var messages := w.hub.queues[q];
    if messages == [] {
      assert w.hub.queues[q := []] == w.hub.queues && w.filters[q := w.filters[q]] == w.filters;
    } else {
      var steps, w' := Repeated(FilterReady(q), |messages|), Next(w, FilterReady(q));
      Drains(w', q);
      assert steps[1..] == Repeated(FilterReady(q), |messages| - 1);
      assert w'.hub.queues[q := []] == w.hub.queues[q := []];
      assert w'.filters[q := Replay(messages, w.filters[q])] == w.filters[q := Replay(messages, w.filters[q])];
    }
  }

  /** Left alone between callbacks, a registered filter gets the collector's policy and upstream by
      handling its queue. */
  lemma {:induction false} RegisteredFiltersCatchUp(w: World, q: QueueId)
    requires Reachable(w) && w.work.Idle? && q in w.hub.queues && q in w.hub.registered
    ensures var caughtUp := Run(w, Repeated(FilterReady(q), |w.hub.queues[q]|));
      caughtUp.Some? && q in caughtUp.value.filters && caughtUp.value.filters[q] == w.hub.view
  {
    Converges(w);
    Drains(w, q);
  }

  // ----- The callbacks, uninterrupted

  /** The registered queues that exist. */
  function Found(queues: map<QueueId, seq<Message>>, registered: seq<QueueId>): seq<QueueId> {
    if registered == [] then []
    else
      var n := |registered| - 1;
      var rest := Found(queues, registered[..n]);
      if registered[n] in queues then rest + [registered[n]] else rest
  }

  /** One copy of the message for each time the queue is registered. */
  function Copies(m: Message, registered: seq<QueueId>, q: QueueId): seq<Message> {
    if registered == [] then []
    else (if registered[0] == q then [m] else []) + Copies(m, registered[1..], q)
  }

  lemma {:induction false} RemoveAllSnoc(s: seq<QueueId>, q: QueueId, indices: seq<nat>)
    requires Increasing(indices, |s|)
    ensures Increasing(indices, |s + [q]|) && RemoveAll(s + [q], indices) == RemoveAll(s, indices) + [q]
    decreases |indices|
  {
    if indices != [] {
      var last := indices[|indices| - 1];
      assert RemoveAt(s + [q], last) == RemoveAt(s, last) + [q];
      RemoveAllSnoc(RemoveAt(s, last), q, indices[..|indices| - 1]);
    }
  }

  lemma {:induction false} RemoveAllLast(s: seq<QueueId>, q: QueueId, indices: seq<nat>)
    requires Increasing(indices, |s|)
    ensures Increasing(indices + [|s|], |s| + 1) && RemoveAll(s + [q], indices + [|s|]) == RemoveAll(s, indices)
  {
    assert RemoveAt(s + [q], |s|) == s;
    assert (indices + [|s|])[..|indices|] == indices;
  }

  /** Which of the first `n` registered queues do not exist. */
  function Missing(queues: map<QueueId, seq<Message>>, registered: seq<QueueId>, n: nat): seq<nat>
    requires n <= |registered|
  {
    if n == 0 then []
    else
      var rest := Missing(queues, registered, n - 1);
      if registered[n - 1] in queues then rest else rest + [n - 1]
  }

  lemma {:induction false} MissingByKeys(queues: map<QueueId, seq<Message>>, others: map<QueueId, seq<Message>>,
                                         registered: seq<QueueId>, n: nat)
    requires n <= |registered| && queues.Keys == others.Keys
    ensures Missing(queues, registered, n) == Missing(others, registered, n)
  {
    if n > 0 {
      MissingByKeys(queues, others, registered, n - 1);
    }
  }

  /** Removing these indices from the first `n` registered queues leaves those that exist. */
  ghost predicate LeavesFound(queues: map<QueueId, seq<Message>>, registered: seq<QueueId>, n: nat, missing: seq<nat>) {
    n <= |registered| && Increasing(missing, n) && RemoveAll(registered[..n], missing) == Found(queues, registered[..n])
  }

  lemma {:induction false} FoundSnoc(queues: map<QueueId, seq<Message>>, before: seq<QueueId>, q: QueueId)
    ensures Found(queues, before + [q]) == if q in queues then Found(queues, before) + [q] else Found(queues, before)
  {
    assert (before + [q])[..|before|] == before;
  }

  lemma {:induction false} OneMoreFound(queues: map<QueueId, seq<Message>>, before: seq<QueueId>, q: QueueId,
                                        after: seq<QueueId>, missing: seq<nat>, more: seq<nat>)
    requires Increasing(missing, |before|) && RemoveAll(before, missing) == Found(queues, before)
    requires after == before + [q] && more == if q in queues then missing else missing + [|before|]
    ensures Increasing(more, |after|) && RemoveAll(after, more) == Found(queues, after)
  {
    FoundSnoc(queues, before, q);
    if q in queues {
      RemoveAllSnoc(before, q, missing);
    } else {
      RemoveAllLast(before, q, missing);
    }
  }

  /** Removing what is missing leaves what is found. */
  lemma {:induction false} RemoveMissing(queues: map<QueueId, seq<Message>>, registered: seq<QueueId>, n: nat,
                                         missing: seq<nat>)
    requires n <= |registered| && missing == Missing(queues, registered, n)
    ensures LeavesFound(queues, registered, n, missing)
    decreases n
  {
    if n == 0 {
      assert registered[..0] == [];
    } else {
      var fewer := Missing(queues, registered, n - 1);
      RemoveMissing(queues, registered, n - 1, fewer);
      UpToNext(registered, n - 1);
      OneMoreFound(queues, registered[..n - 1], registered[n - 1], registered[..n], fewer, missing);
    }
  }

  lemma AdvanceIs(hub: Hub, work: Work)
    requires work.Announcing? && Sensible(hub, work) && work.next < |hub.registered|
    ensures var (hub', work') := Advance(hub, work);
      && work' == work.(next := work.next + 1,
                        bad := if hub.registered[work.next] in hub.queues then work.bad else work.bad + [work.next])
      && hub'.view == hub.view && hub'.registered == hub.registered && hub'.queues.Keys == hub.queues.Keys
  {
  }

  lemma {:induction false} AnnouncementKeeps(hub: Hub, work: Work, done: Hub)
    requires work.Announcing? && work.store.None? && work.later.None? && Sensible(hub, work)
    requires done == Complete(hub, work)
    ensures done.view == hub.view && done.queues.Keys == hub.queues.Keys
    decreases |hub.registered| - work.next
  {
    if work.next < |hub.registered| {
      var (hub', work') := Advance(hub, work);
      AdvanceIs(hub, work);
      AnnouncementKeeps(hub', work', done);
    }
  }

  lemma {:induction false} AnnouncementRegisters(hub: Hub, work: Work, done: Hub)
    requires work.Announcing? && work.store.None? && work.later.None? && Sensible(hub, work)
    requires work.bad == Missing(hub.queues, hub.registered, work.next) && done == Complete(hub, work)
    ensures var missing := Missing(hub.queues, hub.registered, |hub.registered|);
      Increasing(missing, |hub.registered|) && done.registered == RemoveAll(hub.registered, missing)
    decreases |hub.registered| - work.next
  {
    if work.next < |hub.registered| {
      var (hub', work') := Advance(hub, work);
      AdvanceIs(hub, work);
      MissingByKeys(hub.queues, hub'.queues, hub.registered, work'.next);
      MissingByKeys(hub.queues, hub'.queues, hub.registered, |hub.registered|);
      AnnouncementRegisters(hub', work', done);
    }
  }

  lemma {:induction false} AnnouncementCopies(hub: Hub, work: Work, q: QueueId, done: Hub)
    requires work.Announcing? && work.store.None? && work.later.None? && Sensible(hub, work) && q in hub.queues
    requires done == Complete(hub, work)
    ensures q in done.queues
    ensures done.queues[q] == hub.queues[q] + Copies(work.message, hub.registered[work.next..], q)
    decreases |hub.registered| - work.next
  {
    var rest := hub.registered[work.next..];
    if rest != [] {
      var (hub', work') := Advance(hub, work);
      AnnouncementCopies(hub', work', q, done);
      assert rest[1..] == hub.registered[work.next + 1..];
      Assoc(hub.queues[q], [work.message], Copies(work.message, rest[1..], q));
    }
  }

  /** A broadcast adds the message once for each registration to the queues that exist, and afterwards
      exactly those are registered. */
  lemma {:induction false} BroadcastMeans(hub: Hub, m: Message)
    ensures var done := Complete(hub, Broadcast(m));
      && done.view == hub.view && done.registered == Found(hub.queues, hub.registered)
      && done.queues.Keys == hub.queues.Keys
      && forall q :: q in hub.queues ==> done.queues[q] == hub.queues[q] + Copies(m, hub.registered, q)
  {
    assert hub.registered[0..] == hub.registered;
    AnnouncementKeeps(hub, Broadcast(m), Complete(hub, Broadcast(m)));
    AnnouncementRegisters(hub, Broadcast(m), Complete(hub, Broadcast(m)));
    RemoveMissing(hub.queues, hub.registered, |hub.registered|, Missing(hub.queues, hub.registered, |hub.registered|));
    assert hub.registered[..|hub.registered|] == hub.registered;
    forall q | q in hub.queues
      ensures Complete(hub, Broadcast(m)).queues[q] == hub.queues[q] + Copies(m, hub.registered, q)
    {
      AnnouncementCopies(hub, Broadcast(m), q, Complete(hub, Broadcast(m)));
    }
  }

  /** A registration delivers its messages in order and then adds the queue. */
  lemma {:induction false} RegisteringMeans(hub: Hub, q: QueueId, pending: seq<Message>)
    ensures Complete(hub, Registering(q, pending))
         == hub.(queues := DeliverAll(hub.queues, q, pending), registered := hub.registered + [q])
    decreases |pending|
  {
    if pending != [] {
      RegisteringMeans(hub.(queues := Deliver(hub.queues, q, pending[0])), q, pending[1..]);
    }
  }

  function DeliverAll(queues: map<QueueId, seq<Message>>, q: QueueId, messages: seq<Message>)
    : map<QueueId, seq<Message>>
  {
    if messages == [] then queues else DeliverAll(Deliver(queues, q, messages[0]), q, messages[1..])
  }

  lemma {:induction false} DeliverOne(queues: map<QueueId, seq<Message>>, q: QueueId, m: Message)
    ensures DeliverAll(queues, q, [m]) == Deliver(queues, q, m)
  {
    assert [m][1..] == [];
  }

  /** The policy, if there is one, and then the upstream. */
  lemma {:induction false} RegistrationMeans(hub: Hub, q: QueueId, v: View)
    ensures
      var first := if v.policy.Some? then Deliver(hub.queues, q, PolicyUpdate(v.policy.value.0, v.policy.value.1))
                   else hub.queues;
      Complete(hub, Registering(q, FirstMessages(v)))
        == hub.(queues := Deliver(first, q, UpstreamUpdate(v.upstream)), registered := hub.registered + [q])
  {
    var upstream := UpstreamUpdate(v.upstream);
    RegisteringMeans(hub, q, FirstMessages(v));
    if v.policy.Some? {
      var policy := PolicyUpdate(v.policy.value.0, v.policy.value.1);
      assert FirstMessages(v)[1..] == [upstream];
      DeliverOne(Deliver(hub.queues, q, policy), q, upstream);
    } else {
      assert FirstMessages(v) == [upstream];
      DeliverOne(hub.queues, q, upstream);
    }
  }

  lemma {:induction false} CompleteSplits(hub: Hub, work: Work)
    requires work.Announcing? && Sensible(hub, work)
    ensures var sent := Complete(hub, work.(store := None, later := None));
      var stored := sent.(view := Stored(sent.view, work.store));
      Complete(hub, work) == if work.later.Some? then Complete(stored, Broadcast(work.later.value)) else stored
    decreases |hub.registered| - work.next
  {
    if work.next < |hub.registered| {
      var (hub', work') := Advance(hub, work);
      CompleteSplits(hub', work');
    }
  }

  /** A callback that nothing interrupts ends, with the effect of the callback as a whole. */
  lemma {:induction false} Uninterrupted(w: World) returns (n: nat)
    requires Sensible(w.hub, w.work)
    ensures Run(w, Repeated(CollectorWorks, n)) == Some(w.(hub := Complete(w.hub, w.work), work := Idle))
    decreases w.work.Announcing? && w.work.later.Some?,
              if w.work.Announcing? then |w.hub.registered| - w.work.next + 1
              else if w.work.Registering? then |w.work.pending| + 1 else 0
  {
    if w.work.Idle? {
      n := 0;
    } else {
      var m := Uninterrupted(Next(w, CollectorWorks));
      n := m + 1;
      assert Repeated(CollectorWorks, n)[1..] == Repeated(CollectorWorks, m);
    }
  }

  /** The proxy's shared queues. */
  class Host {
    var queues: map<QueueId, seq<Message>>
    var waiting: seq<Uuid>
    var names: map<Uuid, QueueId>

    /** Whether the queue was found. */
    method Enqueue(queue: QueueId, m: Message) returns (found: bool)
      modifies this`queues
      ensures found == (queue in old(queues)) && queues == Deliver(old(queues), queue, m)
    {
      found := queue in queues;
      if found {
        queues := queues[queue := queues[queue] + [m]];
      }
    }

    method Dequeue(queue: QueueId) returns (m: Option<Message>)
      requires queue in queues
      modifies this`queues
      ensures old(queues)[queue] == [] ==> m == None && queues == old(queues)
      ensures old(queues)[queue] != []
        ==> m == Some(old(queues)[queue][0]) && queues == old(queues)[queue := old(queues)[queue][1..]]
    {
      if queues[queue] == [] {
        return None;
      }
      m := Some(queues[queue][0]);
      queues := queues[queue := queues[queue][1..]];
    }
  }

  class Collector {
    const host: Host
    var view: View
    var config: Option<Config>
    var started: bool
    var policyUpdateQueues: seq<QueueId>

    ghost predicate Valid()
      reads this
    {
      !started ==> policyUpdateQueues == []
    }

    /** Between callbacks. */
    ghost predicate Settled()
      reads this
    {
      Valid() && started == config.Some?
    }

    ghost function Holds(): Hub
      reads this, host
    {
      Hub(view, policyUpdateQueues, host.queues)
    }

    constructor (host: Host)
      ensures Settled() && this.host == host && Holds() == Hub(BLANK, [], host.queues) && config == None
    {
      this.host, view, config, started, policyUpdateQueues := host, BLANK, None, false, [];
    }

    /** `broadcast_to_workers` */
    method BroadcastToWorkers(message: Message)
      requires Valid()
      modifies this`policyUpdateQueues, host`queues
      ensures Valid() && Holds() == Complete(old(Holds()), Broadcast(message))
    {
      var badStreamIndex: seq<nat> := [];
      var i := 0;
      if started {
        while i < |policyUpdateQueues|
          invariant i <= |policyUpdateQueues| && Increasing(badStreamIndex, i)
          invariant policyUpdateQueues == old(policyUpdateQueues)
          invariant Complete(old(Holds()), Broadcast(message))
                 == Complete(Holds(), Announcing(message, i, badStreamIndex, None, None))
        {
          var found := host.Enqueue(policyUpdateQueues[i], message);
          if !found {
            badStreamIndex := badStreamIndex + [i];
          }
          i := i + 1;
        }
      }
      policyUpdateQueues := RemoveLastFirst(policyUpdateQueues, badStreamIndex);
    }

    static method RemoveLastFirst(s: seq<QueueId>, indices: seq<nat>) returns (kept: seq<QueueId>)
      requires Increasing(indices, |s|)
      ensures kept == RemoveAll(s, indices)
    {
      kept := s;
      assert indices[..|indices|] == indices;
      for n := |indices| downto 0
        invariant Increasing(indices[..n], |kept|) && RemoveAll(kept, indices[..n]) == RemoveAll(s, indices)
      {
        assert indices[..n + 1][..n] == indices[..n];
        kept := RemoveAt(kept, indices[n]);
      }
    }

    /** `do_policy_update` */
    method DoPolicyUpdate(id: string, policy: Policy)
      requires Valid()
      modifies this`policyUpdateQueues, this`view, host`queues
      ensures Valid() && Holds() == Complete(old(Holds()), PolicyWork(id, policy, None))
      ensures view == old(view).(policy := Some((id, policy)))
    {
      CompleteSplits(Holds(), PolicyWork(id, policy, None));
      BroadcastToWorkers(PolicyUpdate(id, policy));
      view := view.(policy := Some((id, policy)));
    }

    /** `on_configure` */
    method OnConfigure(parsed: Config)
      requires Settled() && (config.None? ==> parsed.mode == LocalCollector)
      modifies this, host`queues
      ensures Settled()
      ensures var (hub, work, latest) := Configured(old(Holds()), old(config), parsed);
        Holds() == Complete(hub, work) && config == latest
    {
      if config.Some? && (config.value.mode != parsed.mode || config.value.group != parsed.group) {
        return;
      }
      ghost var work := ConfigureWork(parsed, view);
      config := Some(parsed);
      var oldUpstream := view.upstream;
      view := view.(upstream := ConfiguredUpstream(parsed, view));
      if parsed.localPolicy.Some? {
        CompleteSplits(Holds(), work);
        CompleteSplits(Holds(), work.(later := None));
        DoPolicyUpdate("local", parsed.localPolicy.value);
      }
      if started {
        if view.upstream != oldUpstream && view.upstream.Some? {
          BroadcastToWorkers(UpstreamUpdate(view.upstream));
        }
      } else {
        started, policyUpdateQueues := true, [];
      }
    }

    /** `on_queue_ready` for the queue on which filters register */
    method OnQueueReady()
      requires Settled() && started
      modifies this`policyUpdateQueues, host`queues, host`waiting
      ensures Settled() && host.waiting == if old(host.waiting) == [] then [] else old(host.waiting)[1..]
      ensures var work := RegistrationWork(old(host.waiting), host.names, view);
        Holds() == Complete(old(Holds()), work)
    {
      if host.waiting == [] {
        return;
      }
      var uuid := host.waiting[0];
      host.waiting := host.waiting[1..];
      if |uuid| != 16 {
        return;
      }
      if uuid !in host.names {
        return;
      }
      var queue := host.names[uuid];
      RegistrationMeans(Holds(), queue, view);
      if view.policy.Some? {
        var _ := host.Enqueue(queue, PolicyUpdate(view.policy.value.0, view.policy.value.1));
      }
      var _ := host.Enqueue(queue, UpstreamUpdate(view.upstream));
      policyUpdateQueues := policyUpdateQueues + [queue];
    }
  }

  class Worker {
    const host: Host
    const policyUpdateQueue: QueueId
    var view: View

    constructor (host: Host, policyUpdateQueue: QueueId)
      ensures this.host == host && this.policyUpdateQueue == policyUpdateQueue && view == BLANK
    {
      this.host, this.policyUpdateQueue, view := host, policyUpdateQueue, BLANK;
    }

    /** A filter's `on_queue_ready`: where its queue leads does not change. */
    method OnQueueReady()
      requires policyUpdateQueue in host.queues
      modifies this`view, host`queues
      ensures var before := old(host.queues)[policyUpdateQueue];
        && host.queues == old(host.queues)[policyUpdateQueue := if before == [] then [] else before[1..]]
        && view == (if before == [] then old(view) else Apply(before[0], old(view)))
        && Replay(host.queues[policyUpdateQueue], view) == Replay(before, old(view))
    {
      var m := host.Dequeue(policyUpdateQueue);
      match m
      case None =>
      case Some(PolicyUpdate(id, policy)) => view := view.(policy := Some((id, policy)));
      case Some(UpstreamUpdate(upstream)) => view := view.(upstream := upstream);
    }
  }
}
