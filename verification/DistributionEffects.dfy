/** What the collector's callbacks bring about, told by the fields of the configuration and the messages. */
module DistributionEffects {
  import opened Bytes
  import opened Distribution
  import opened DistributionFaults

  // ----- A step and the callback that it starts

  lemma {:induction false} ReachableRun(w: World, steps: seq<Step>)
    requires Reachable(w) && Run(w, steps).Some? && forall i :: 0 <= i < |steps| ==> ByProtocol(steps[i])
    ensures Reachable(Run(w, steps).value)
  {
    var before :| Run(START, before) == Some(w) && forall i :: 0 <= i < |before| ==> ByProtocol(before[i]);
    RunAppend(START, before, steps);
    assert Run(START, before + steps) == Run(w, steps);
  }

  /** A step of the protocol between callbacks, and then the whole callback that it starts. */
  lemma {:induction false} StepAndCallback(w: World, step: Step) returns (n: nat, end: World)
    requires Reachable(w) && Enabled(w, step) && ByProtocol(step)
    ensures Run(w, [step] + Repeated(CollectorWorks, n)) == Some(end) && Reachable(end)
    ensures var next := Next(w, step);
      Sensible(next.hub, next.work) && end == next.(hub := Complete(next.hub, next.work), work := Idle)
  {
    var next := Next(w, step);
    var told := ReachableInv(w);
    var now := StepKeeps(w, told, step);
    n := Uninterrupted(next);
    end := next.(hub := Complete(next.hub, next.work), work := Idle);
    assert [step][1..] == [];
    RunAppend(w, [step], Repeated(CollectorWorks, n));
    ReachableRun(w, [step] + Repeated(CollectorWorks, n));
  }

  /** The announcement stores its policy and leaves the upstream alone. */
  lemma {:induction false} ViewAfter(hub: Hub, work: Work)
    requires Sensible(hub, work) && (work.Idle? || work.Announcing?)
    ensures Complete(hub, work).view == if work.Announcing? then Stored(hub.view, work.store) else hub.view
  {
    if work.Announcing? {
      var alone := work.(store := None, later := None);
      CompleteSplits(hub, work);
      AnnouncementKeeps(hub, alone, Complete(hub, alone));
      if work.later.Some? {
        var sent := Complete(hub, alone);
        var stored := sent.(view := Stored(sent.view, work.store));
        AnnouncementKeeps(stored, Broadcast(work.later.value), Complete(stored, Broadcast(work.later.value)));
      }
    }
  }

  /** Filters that are registered and alive stay so. */
  lemma {:induction false} RegisteredAfter(hub: Hub, work: Work, q: QueueId)
    requires Sensible(hub, work) && (work.Idle? || (work.Announcing? && work.bad == []))
    requires q in hub.queues && q in hub.registered
    ensures q in Complete(hub, work).queues && q in Complete(hub, work).registered
  {
    if work.Announcing? {
      AnnouncementEnds(hub, work, q, BLANK, Complete(hub, work));
    }
  }

  /** The collector has this policy and this upstream, every registered filter is bound for them, and no
      filter that was registered and is alive has been dropped. */
  ghost predicate TakesEffect(before: World, end: World, policy: Option<(string, Policy)>,
                              upstream: Option<UpstreamConfig>)
  {
    && end.work.Idle? && end.hub.view.policy == policy && end.hub.view.upstream == upstream
    && Converging(end)
    && forall q :: q in before.hub.queues && q in before.hub.registered
         ==> q in end.hub.queues && q in end.hub.registered
  }

  lemma {:induction false} CallbackTakesEffect(w: World, next: World, end: World, policy: Option<(string, Policy)>,
                                               upstream: Option<UpstreamConfig>)
    requires Sensible(next.hub, next.work) && end == next.(hub := Complete(next.hub, next.work), work := Idle)
    requires Reachable(end) && next.hub.queues == w.hub.queues && next.hub.registered == w.hub.registered
    requires next.work.Idle? || (next.work.Announcing? && next.work.bad == [])
    requires policy
          == (if next.work.Announcing? && next.work.store.Some? then next.work.store else next.hub.view.policy)
    requires upstream == next.hub.view.upstream
    ensures TakesEffect(w, end, policy, upstream)
  {
    Converges(end);
    ViewAfter(next.hub, next.work);
    forall q | q in w.hub.queues && q in w.hub.registered ensures q in end.hub.queues && q in end.hub.registered {
      RegisteredAfter(next.hub, next.work, q);
    }
  }

  /** A new configuration of a running collector: its local policy, if it has one, and its upstream, if both the
      cluster and the deployment are given, become those of the collector and of all registered filters; what
      it does not give stays. */
  lemma {:induction false} ConfigurationTakesEffect(w: World, config: Config) returns (n: nat, end: World)
    requires Reachable(w) && w.work.Idle? && w.config.Some?
    requires config.mode == w.config.value.mode && config.group == w.config.value.group
    ensures Run(w, [Configure(config)] + Repeated(CollectorWorks, n)) == Some(end) && end.config == Some(config)
    ensures TakesEffect(w, end,
      match config.localPolicy case Some(policy) => Some(("local", policy)) case None => w.hub.view.policy,
      match (config.upstreamCluster, config.deploymentName)
      case (Some(cluster), Some(deployment)) => Some(UpstreamConfig(cluster, deployment, config.apiKey))
      case _ => w.hub.view.upstream)
  {
    n, end := StepAndCallback(w, Configure(config));
    CallbackTakesEffect(w, Next(w, Configure(config)), end,
      match config.localPolicy case Some(policy) => Some(("local", policy)) case None => w.hub.view.policy,
      match (config.upstreamCluster, config.deploymentName)
      case (Some(cluster), Some(deployment)) => Some(UpstreamConfig(cluster, deployment, config.apiKey))
      case _ => w.hub.view.upstream);
  }

  /** The first configuration of the collector is stored, and there is no filter yet to be told. */
  lemma {:induction false} FirstConfiguration(w: World, config: Config)
    requires Reachable(w) && w.config.None? && Enabled(w, Configure(config))
    ensures var w' := Next(w, Configure(config));
      && w'.config == Some(config) && w'.hub.registered == [] && w'.hub.queues == w.hub.queues
      && TakesEffect(w, w',
           match config.localPolicy case Some(policy) => Some(("local", policy)) case None => w.hub.view.policy,
           match (config.upstreamCluster, config.deploymentName)
           case (Some(cluster), Some(deployment)) => Some(UpstreamConfig(cluster, deployment, config.apiKey))
           case _ => w.hub.view.upstream)
  {
    var told := ReachableInv(w);
  }

  /** A configuration with another mode or group changes nothing. */
  lemma {:induction false} OtherModeIsIgnored(w: World, config: Config)
    requires w.work.Idle? && w.config.Some?
    requires config.mode != w.config.value.mode || config.group != w.config.value.group
    ensures Next(w, Configure(config)) == w
  {
  }

  /** A policy that arrives becomes that of the collector and of all registered filters. */
  lemma {:induction false} PolicyTakesEffect(w: World, id: string, policy: Policy) returns (n: nat, end: World)
    requires Reachable(w) && w.work.Idle? && w.config.Some?
    ensures Run(w, [PolicyArrives(id, policy)] + Repeated(CollectorWorks, n)) == Some(end)
    ensures TakesEffect(w, end, Some((id, policy)), w.hub.view.upstream)
  {
    n, end := StepAndCallback(w, PolicyArrives(id, policy));
    CallbackTakesEffect(w, Next(w, PolicyArrives(id, policy)), end, Some((id, policy)), w.hub.view.upstream);
  }

  /** A registration is taken off the queue, and its filter joins those that the collector tells. */
  lemma {:induction false} RegistrationTakesEffect(w: World, q: QueueId) returns (n: nat, end: World)
    requires Reachable(w) && w.work.Idle? && w.config.Some?
    requires w.waiting != [] && |w.waiting[0]| == 16 && w.waiting[0] in w.names && w.names[w.waiting[0]] == q
    ensures Run(w, [RegisterReady] + Repeated(CollectorWorks, n)) == Some(end)
    ensures end.waiting == w.waiting[1..] && end.hub.registered == w.hub.registered + [q]
    ensures TakesEffect(w, end, w.hub.view.policy, w.hub.view.upstream) && ConvergesOn(end, q)
  {
    var next := Next(w, RegisterReady);
    n, end := StepAndCallback(w, RegisterReady);
    var told := ReachableInv(w);
    RegistrationMeans(w.hub, q, w.hub.view);
    Converges(end);
  }

  /** A filter that starts is blank and has an empty queue of its own, and if the collector runs it waits to be
      registered behind all others. */
  lemma {:induction false} FilterStartsBlank(w: World, uuid: Uuid)
    requires Reachable(w) && Enabled(w, FilterStarts(uuid))
    ensures var w' := Next(w, FilterStarts(uuid));
      && uuid in w'.names && w'.names[uuid] !in w.hub.queues && w'.names[uuid] !in w.hub.registered
      && w'.hub == w.hub.(queues := w.hub.queues[w'.names[uuid] := []])
      && w'.filters == w.filters[w'.names[uuid] := BLANK]
      && w'.waiting == if w.config.Some? then w.waiting + [uuid] else w.waiting
  {
    var told := ReachableInv(w);
  }

  /** A filter that dies takes its queue and its name with it, and nothing else; the collector finds out when it
      next sends to it. */
  lemma {:induction false} FilterDiesAlone(w: World, q: QueueId)
    requires Reachable(w) && q in w.filters
    ensures var w' := Next(w, FilterDies(q));
      && w'.hub.view == w.hub.view && w'.hub.registered == w.hub.registered && w'.work == w.work
      && w'.waiting == w.waiting && w'.config == w.config
      && (forall p :: p in w'.hub.queues <==> p in w.hub.queues && p != q)
      && (forall p :: p in w'.hub.queues ==> w'.hub.queues[p] == w.hub.queues[p])
      && (forall p :: p in w'.filters <==> p in w.filters && p != q)
      && (forall p :: p in w'.filters ==> w'.filters[p] == w.filters[p])
      && (forall uuid :: uuid in w'.names <==> uuid in w.names && w.names[uuid] != q)
      && (forall uuid :: uuid in w'.names ==> w'.names[uuid] == w.names[uuid])
  {
    var told := ReachableInv(w);
  }

  /** Filters start, handle messages and die at any time. */
  lemma {:induction false} FiltersGoOn(w: World)
    requires Reachable(w)
    ensures forall uuid :: |uuid| == 16 && uuid !in w.names ==> Enabled(w, FilterStarts(uuid))
    ensures forall q :: q in w.filters ==> Enabled(w, FilterReady(q)) && Enabled(w, FilterDies(q))
  {
    var told := ReachableInv(w);
    assert w.filters.Keys == w.hub.queues.Keys;
  }

  /** The collector goes on with its callback, and between callbacks takes registrations, policies and
      configurations, but first one for a collector. */
  lemma {:induction false} CollectorGoesOn(w: World, id: string, policy: Policy, config: Config)
    requires Reachable(w)
    ensures !w.work.Idle? ==> Enabled(w, CollectorWorks)
    ensures w.work.Idle? && w.config.Some? ==> Enabled(w, RegisterReady) && Enabled(w, PolicyArrives(id, policy))
    ensures w.work.Idle? ==> (Enabled(w, Configure(config)) <==> w.config.Some? || config.mode == LocalCollector)
  {
    var told := ReachableInv(w);
    assert Sensible(w.hub, w.work);
  }
}
