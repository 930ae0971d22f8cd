/** What becomes of convergence when the protocol of `Distribution` is left: when the host refuses a message
    with a status other than not-found, and when a filter is configured with a policy or upstream of its
    own. */
module DistributionFaults {
  import opened Bytes
  import opened Distribution

  // ----- What a filter's queue leads to, component by component

  predicate HasPolicy(messages: seq<Message>) {
    exists i :: 0 <= i < |messages| && messages[i].PolicyUpdate?
  }

  predicate HasUpstream(messages: seq<Message>) {
    exists i :: 0 <= i < |messages| && messages[i].UpstreamUpdate?
  }

  lemma {:induction false} ReplayAppend(a: seq<Message>, b: seq<Message>, v: View)
    ensures Replay(a + b, v) == Replay(b, Replay(a, v))
    decreases |a|
  {
    if a == [] {
      assert a + b == b;
    } else {
      assert (a + b)[1..] == a[1..] + b;
      ReplayAppend(a[1..], b, Apply(a[0], v));
    }
  }

  /** The policy a filter arrives at is its own unless its queue holds one; then its own does not matter. */
  lemma {:induction false} ReplayPolicy(messages: seq<Message>, v: View, other: View)
    ensures if HasPolicy(messages) then Replay(messages, v).policy == Replay(messages, other).policy
            else Replay(messages, v).policy == v.policy
    decreases |messages|
  {
    if messages != [] {
      var rest := messages[1..];
      HasFirst(messages);
      if messages[0].PolicyUpdate? && !HasPolicy(rest) {
        ReplayPolicy(rest, Apply(messages[0], other), v);
      }
      ReplayPolicy(rest, Apply(messages[0], v), Apply(messages[0], other));
    }
  }

  lemma HasFirst(messages: seq<Message>)
    requires messages != []
    ensures HasPolicy(messages) <==> messages[0].PolicyUpdate? || HasPolicy(messages[1..])
    ensures HasUpstream(messages) <==> messages[0].UpstreamUpdate? || HasUpstream(messages[1..])
  {
    assert messages == [messages[0]] + messages[1..];
  }

  /** The same of the upstream. */
  lemma {:induction false} ReplayUpstream(messages: seq<Message>, v: View, other: View)
    ensures if HasUpstream(messages) then Replay(messages, v).upstream == Replay(messages, other).upstream
            else Replay(messages, v).upstream == v.upstream
    decreases |messages|
  {
    if messages != [] {
      var rest := messages[1..];
      HasFirst(messages);
      if messages[0].UpstreamUpdate? && !HasUpstream(rest) {
        ReplayUpstream(rest, Apply(messages[0], other), v);
      }
      ReplayUpstream(rest, Apply(messages[0], v), Apply(messages[0], other));
    }
  }

  // ----- A filter configured on its own

  predicate BringsUpstream(config: Config) {
    config.upstreamCluster.Some? && config.deploymentName.Some?
  }

  /** A filter that registered and is then configured itself still converges exactly when each thing that
      the configuration brings is what the collector has, or is going to be overridden by a message that
      waits in the filter's queue. */
  lemma OwnConfigurationIff(w: World, q: QueueId, config: Config)
    requires Reachable(w) && w.work.Idle? && q in w.hub.queues && q in w.hub.registered
    ensures q in w.filters
    ensures ConvergesOn(Next(w, FilterConfigured(q, config)), q)
      <==> && (config.localPolicy.None? || LocalPolicy(config) == w.hub.view.policy || HasPolicy(w.hub.queues[q]))
           && (!BringsUpstream(config) || ConfiguredUpstream(config, w.filters[q]) == w.hub.view.upstream
               || HasUpstream(w.hub.queues[q]))
    ensures forall p :: p in w.filters && p != q
              ==> (ConvergesOn(Next(w, FilterConfigured(q, config)), p) <==> ConvergesOn(w, p))
  {
    Converges(w);
    var before, after := w.filters[q], Next(w, FilterConfigured(q, config)).filters[q];
    ReplayPolicy(w.hub.queues[q], after, before);
    ReplayPolicy(w.hub.queues[q], before, after);
    ReplayUpstream(w.hub.queues[q], after, before);
    ReplayUpstream(w.hub.queues[q], before, after);
  }

  /** The first messages replace the upstream always, and the policy if the collector has one. */
  lemma {:induction false} FirstMessagesReplace(v: View, own: View)
    ensures Replay(FirstMessages(v), own) == View(if v.policy.Some? then v.policy else own.policy, v.upstream)
  {
    var upstream := UpstreamUpdate(v.upstream);
    assert [] + [upstream] == [upstream];
    if v.policy.Some? {
      var policy := PolicyUpdate(v.policy.value.0, v.policy.value.1);
      ReplaySnoc([policy], upstream, own);
      ReplaySnoc([], policy, own);
      assert [] + [policy] == [policy];
    } else {
      ReplaySnoc([], upstream, own);
    }
  }

  /** A registration brings a filter that has handled nothing yet to the collector's view, but for a policy of
      its own that nothing replaces. */
  lemma {:induction false} RegistrationBrings(hub: Hub, q: QueueId, own: View, done: Hub)
    requires q in hub.queues && hub.queues[q] == [] && done == Complete(hub, Registering(q, FirstMessages(hub.view)))
    ensures q in done.queues && q in done.registered && done.view == hub.view
    ensures Replay(done.queues[q], own) == hub.view <==> hub.view.policy.Some? || own.policy.None?
  {
    var messages := FirstMessages(hub.view);
    RegisteringMeans(hub, q, messages);
    DeliverAllTo(hub.queues, q, messages, q);
    Assoc([], messages, []);
    FirstMessagesReplace(hub.view, own);
    assert done.queues[q] == messages && hub.view == View(hub.view.policy, hub.view.upstream);
  }

  lemma {:induction false} RunThen(w: World, first: Step, second: Step, n: nat)
    requires Enabled(w, first) && Enabled(Next(w, first), second)
    ensures Run(w, [first, second] + Repeated(CollectorWorks, n))
         == Run(Next(Next(w, first), second), Repeated(CollectorWorks, n))
  {
    var works := Repeated(CollectorWorks, n);
    assert ([first, second] + works)[1..] == [second] + works && ([second] + works)[1..] == works;
  }

  /** The ordinary case: a filter that is configured itself before it registers. Once registered it converges
      exactly when its configuration brings no policy, or the collector has one; its own upstream is
      overwritten always. */
  lemma OwnConfigurationFirstIff(w: World, q: QueueId, config: Config) returns (n: nat, end: World)
    requires Reachable(w) && w.work.Idle? && w.config.Some? && q in w.hub.queues && q !in w.hub.registered
    requires w.waiting != [] && |w.waiting[0]| == 16 && w.waiting[0] in w.names && w.names[w.waiting[0]] == q
    ensures Run(w, [FilterConfigured(q, config), RegisterReady] + Repeated(CollectorWorks, n)) == Some(end)
    ensures end.work.Idle? && end.hub.view == w.hub.view && q in end.hub.registered
    ensures ConvergesOn(end, q) <==> config.localPolicy.None? || w.hub.view.policy.Some?
  {
    Converges(w);
    var registering := Next(Next(w, FilterConfigured(q, config)), RegisterReady);
    n := Uninterrupted(registering);
    end := registering.(hub := Complete(w.hub, registering.work), work := Idle);
    RunThen(w, FilterConfigured(q, config), RegisterReady, n);
    RegistrationBrings(w.hub, q, end.filters[q], end.hub);
  }

  // ----- Any number of refused messages

  /** The message that the step puts into the queue, if any. */
  function DeliveredBy(w: World, step: Step, q: QueueId): seq<Message> {
    if !step.CollectorWorks? || q !in w.hub.queues then []
    else match w.work
      case Announcing(m, next, _, _, _) => if next < |w.hub.registered| && w.hub.registered[next] == q then [m] else []
      case Registering(queue, pending) => if pending != [] && queue == q then [pending[0]] else []
      case Idle => []
  }

  /** What the host accepted for the queue during a run. */
  function Delivered(w: World, steps: seq<Step>, q: QueueId): seq<Message>
    decreases |steps|
  {
    if steps == [] || !Enabled(w, steps[0]) then []
    else DeliveredBy(w, steps[0], q) + Delivered(Next(w, steps[0]), steps[1..], q)
  }

  function Arrives(w: World, q: QueueId): View
    requires q in w.hub.queues && q in w.filters
  {
    Replay(w.hub.queues[q], w.filters[q])
  }

  /** The filter lives on and is not configured. */
  predicate LeavesAlone(step: Step, q: QueueId) {
    match step
    case FilterDies(queue) => queue != q
    case FilterConfigured(queue, _) => queue != q
    case _ => true
  }

  lemma StepDelivers(w: World, step: Step, q: QueueId)
    requires Enabled(w, step) && LeavesAlone(step, q) && q in w.hub.queues && q in w.filters && q < w.unused
    ensures var w' := Next(w, step);
      && q in w'.hub.queues && q in w'.filters && q < w'.unused
      && Arrives(w', q) == Replay(DeliveredBy(w, step, q), Arrives(w, q))
  {
    var delivered := DeliveredBy(w, step, q);
    if delivered == [] {
    } else {
      assert delivered == [delivered[0]] && delivered[1..] == [];
      ReplaySnoc(w.hub.queues[q], delivered[0], w.filters[q]);
    }
  }

  /** What a live filter arrives at is where it was bound before, and then whatever was accepted for it, in
      every run: however many messages are refused, and whatever the filters do in between. */
  lemma {:induction false} DeliveredDecides(w: World, steps: seq<Step>, q: QueueId)
    requires q in w.hub.queues && q in w.filters && q < w.unused && Run(w, steps).Some?
    requires LeftAlone(steps, q)
    ensures var end := Run(w, steps).value;
      && q in end.hub.queues && q in end.filters
      && Arrives(end, q) == Replay(Delivered(w, steps, q), Arrives(w, q))
    decreases |steps|
  {
    if steps != [] {
      var next := Next(w, steps[0]);
      StepDelivers(w, steps[0], q);
      DeliveredDecides(next, steps[1..], q);
      ReplayAppend(DeliveredBy(w, steps[0], q), Delivered(next, steps[1..], q), Arrives(w, q));
    }
  }

  predicate LeftAlone(steps: seq<Step>, q: QueueId) {
    forall i :: 0 <= i < |steps| ==> LeavesAlone(steps[i], q)
  }

  /** The last policy among the messages, if there is one, and otherwise `own`. */
  function LastPolicy(messages: seq<Message>, own: Option<(string, Policy)>): Option<(string, Policy)> {
    if messages == [] then own
    else match messages[|messages| - 1]
      case PolicyUpdate(id, policy) => Some((id, policy))
      case UpstreamUpdate(_) => LastPolicy(messages[..|messages| - 1], own)
  }

  function LastUpstream(messages: seq<Message>, own: Option<UpstreamConfig>): Option<UpstreamConfig> {
    if messages == [] then own
    else match messages[|messages| - 1]
      case UpstreamUpdate(upstream) => upstream
      case PolicyUpdate(_, _) => LastUpstream(messages[..|messages| - 1], own)
  }

  lemma {:induction false} ReplayIsLast(messages: seq<Message>, v: View)
    ensures Replay(messages, v) == View(LastPolicy(messages, v.policy), LastUpstream(messages, v.upstream))
    decreases |messages|
  {
    if messages != [] {
      var init, last := messages[..|messages| - 1], messages[|messages| - 1];
      ReplayIsLast(init, v);
      ReplaySnoc(init, last, v);
      assert messages == init + [last];
    }
  }

  /** The condition in every run, and at every moment of it: a live filter converges if and only if the last
      policy and the last upstream that the host accepted for it are the collector's. `w` may be the state in
      which the filter started, or was configured before any message was sent to it. */
  lemma {:induction false} ConvergesIffDelivered(w: World, steps: seq<Step>, q: QueueId)
    requires q in w.hub.queues && q in w.filters && q < w.unused && w.hub.queues[q] == []
    requires Run(w, steps).Some? && LeftAlone(steps, q)
    ensures var end, sent, own := Run(w, steps).value, Delivered(w, steps, q), w.filters[q];
      ConvergesOn(end, q)
      <==> LastPolicy(sent, own.policy) == end.hub.view.policy
           && LastUpstream(sent, own.upstream) == end.hub.view.upstream
  {
    DeliveredDecides(w, steps, q);
    ReplayIsLast(Delivered(w, steps, q), w.filters[q]);
  }

  // ----- A refused message

  /** The message of an announcement is sent to the queue by another registration. */
  predicate ReachedAgain(hub: Hub, work: Work, q: QueueId)
    requires work.Announcing? && work.next <= |hub.registered|
  {
    q in hub.registered[work.next..]
  }

  /** The marked registrations are of queues that no longer exist. */
  predicate AreMissing(registered: seq<QueueId>, bad: seq<nat>, queues: set<QueueId>) {
    forall k :: 0 <= k < |bad| ==> bad[k] < |registered| && registered[bad[k]] !in queues
  }

  lemma MarksNext(registered: seq<QueueId>, bad: seq<nat>, queues: set<QueueId>, next: nat)
    requires AreMissing(registered, bad, queues) && next < |registered|
    ensures AreMissing(registered, if registered[next] in queues then bad else bad + [next], queues)
  {
  }

  /** A queue that exists stays registered. */
  lemma {:induction false} AnnouncementSpares(hub: Hub, work: Work, q: QueueId, done: Hub)
    requires work.Announcing? && work.store.None? && work.later.None? && Sensible(hub, work)
    requires AreMissing(hub.registered, work.bad, hub.queues.Keys)
    requires q in hub.queues && q in hub.registered && done == Complete(hub, work)
    ensures q in done.registered
    decreases |hub.registered| - work.next
  {
    if work.next < |hub.registered| {
      var (hub', work') := Advance(hub, work);
      AdvanceIs(hub, work);
      MarksNext(hub.registered, work.bad, hub.queues.Keys, work.next);
      AnnouncementSpares(hub', work', q, done);
    } else {
      RemoveAllKeeps(hub.registered, work.bad, q);
    }
  }

  /** Sending a message several times is sending it once. */
  lemma {:induction false} ReplayCopies(m: Message, registered: seq<QueueId>, q: QueueId, v: View)
    ensures Replay(Copies(m, registered, q), v) == if q in registered then Apply(m, v) else v
    decreases |registered|
  {
    if registered != [] {
      var more := Copies(m, registered[1..], q);
      assert registered == [registered[0]] + registered[1..];
      if registered[0] == q {
        assert ([m] + more)[1..] == more;
        ReplayCopies(m, registered[1..], q, Apply(m, v));
      } else {
        assert [] + more == more;
        ReplayCopies(m, registered[1..], q, v);
      }
    }
  }

  /** Where the rest of an announcement leads a filter that is on its way to `r`. */
  function Outcome(work: Work, again: bool, r: View): View
    requires work.Announcing?
  {
    var sent := if again then Apply(work.message, r) else r;
    if work.later.Some? then Apply(work.later.value, sent) else sent
  }

  lemma {:induction false} CopiesArrive(hub: Hub, work: Work, q: QueueId, filter: View, sent: Hub)
    requires work.Announcing? && work.store.None? && work.later.None? && Sensible(hub, work) && q in hub.queues
    requires sent == Complete(hub, work)
    ensures q in sent.queues
    ensures Replay(sent.queues[q], filter)
         == if q in hub.registered[work.next..] then Apply(work.message, Replay(hub.queues[q], filter))
            else Replay(hub.queues[q], filter)
  {
    AnnouncementCopies(hub, work, q, sent);
    ReplayAppend(hub.queues[q], Copies(work.message, hub.registered[work.next..], q), filter);
    ReplayCopies(work.message, hub.registered[work.next..], q, Replay(hub.queues[q], filter));
  }

  lemma {:induction false} LaterArrives(hub: Hub, m: Message, q: QueueId, filter: View, done: Hub)
    requires q in hub.queues && q in hub.registered && done == Complete(hub, Broadcast(m))
    ensures q in done.queues && q in done.registered && done.view == hub.view
    ensures Replay(done.queues[q], filter) == Apply(m, Replay(hub.queues[q], filter))
  {
    AnnouncementKeeps(hub, Broadcast(m), done);
    AnnouncementSpares(hub, Broadcast(m), q, done);
    CopiesArrive(hub, Broadcast(m), q, filter, done);
    assert hub.registered[0..] == hub.registered;
  }

  /** What the rest of the callback makes of the collector's view and of one filter. */
  lemma {:induction false} AnnouncementEnds(hub: Hub, work: Work, q: QueueId, filter: View, done: Hub)
    requires work.Announcing? && Sensible(hub, work) && q in hub.queues && q in hub.registered
    requires forall k :: 0 <= k < |work.bad| ==> hub.registered[work.bad[k]] !in hub.queues
    requires done == Complete(hub, work)
    ensures q in done.queues && q in done.registered && done.view == Stored(hub.view, work.store)
    ensures Replay(done.queues[q], filter)
         == Outcome(work, ReachedAgain(hub, work, q), Replay(hub.queues[q], filter))
  {
    var alone := work.(store := None, later := None);
    var sent := Complete(hub, alone);
    CompleteSplits(hub, work);
    AnnouncementKeeps(hub, alone, sent);
    AnnouncementSpares(hub, alone, q, sent);
    CopiesArrive(hub, alone, q, filter, sent);
    if work.later.Some? {
      LaterArrives(sent.(view := Stored(sent.view, work.store)), work.later.value, q, filter, done);
    }
  }

  /** The collector's view at the end, and what a filter that misses the message lacks. */
  lemma MissedMatters(work: Work, again: bool, r: View, told: View, view: View)
    requires work.Announcing? && (r == told || r == Apply(work.message, told))
    requires work.later.Some? ==> work.message.PolicyUpdate? && work.later.value.UpstreamUpdate?
    requires view == Outcome(work, true, told)
    ensures Outcome(work, again, r) == view <==> again || Apply(work.message, r) == r
  {
  }

  /** The filter is registered, or its registration is being handled. */
  predicate Bound(hub: Hub, work: Work, q: QueueId) {
    q in hub.registered || (work.Registering? && work.queue == q)
  }

  /** Refusing the next message takes nothing from the filter. In an announcement: the registration is
      another's, or the message reaches the filter by one that follows, or would change nothing. In a
      registration: it is another's, or the message would change nothing. */
  predicate Spared(w: World, q: QueueId)
    requires Enabled(w, MessageRefused) && q in w.hub.queues && q in w.filters
  {
    var arrives := Replay(w.hub.queues[q], w.filters[q]);
    if w.work.Announcing? then
      || q != w.hub.registered[w.work.next]
      || q in w.hub.registered[w.work.next + 1..]
      || Apply(w.work.message, arrives) == arrives
    else
      q != w.work.queue || Apply(w.work.pending[0], arrives) == arrives
  }

  /** The host refuses a message of an announcement or of a registration, and the callback goes on to its
      end. Every live filter that was registered, or whose registration this is, is registered then, and
      converges if and only if it was spared. */
  lemma RefusalIff(w: World) returns (n: nat, end: World)
    requires Reachable(w) && Enabled(w, MessageRefused)
    ensures Run(w, [MessageRefused] + Repeated(CollectorWorks, n)) == Some(end) && end.work.Idle?
    ensures forall q :: q in w.hub.queues && Bound(w.hub, w.work, q) ==> q in w.filters && q in end.hub.registered
    ensures forall q :: q in w.hub.queues && Bound(w.hub, w.work, q) && q in w.filters
              ==> (ConvergesOn(end, q) <==> Spared(w, q))
  {
    var told := ReachableInv(w);
    var w' := Next(w, MessageRefused);
    n := Uninterrupted(w');
    end := w'.(hub := Complete(w'.hub, w'.work), work := Idle);
    RunRefused(w, n);
    forall q | q in w.hub.queues && Bound(w.hub, w.work, q)
      ensures q in w.filters && q in end.hub.registered && (ConvergesOn(end, q) <==> Spared(w, q))
    {
      RefusalFor(w, told, q, end.hub);
    }
  }

  lemma RefusalFor(w: World, told: View, q: QueueId, done: Hub)
    requires Inv(w, told) && Enabled(w, MessageRefused) && q in w.hub.queues && Bound(w.hub, w.work, q)
    requires done == Complete(w.hub, Refused(w.work))
    ensures q in w.filters && q in done.queues && q in done.registered
    ensures Replay(done.queues[q], w.filters[q]) == done.view <==> Spared(w, q)
  {
    if w.work.Announcing? {
      AnnouncementRefused(w, told, q, done);
    } else {
      RegistrationRefused(w, told, q, done);
    }
  }

  lemma {:induction false} RunRefused(w: World, n: nat)
    requires Enabled(w, MessageRefused)
    ensures Run(w, [MessageRefused] + Repeated(CollectorWorks, n))
         == Run(Next(w, MessageRefused), Repeated(CollectorWorks, n))
  {
    assert ([MessageRefused] + Repeated(CollectorWorks, n))[1..] == Repeated(CollectorWorks, n);
  }

  lemma AnnouncementRefused(w: World, told: View, q: QueueId, done: Hub)
    requires Inv(w, told) && Enabled(w, MessageRefused) && w.work.Announcing?
    requires q in w.hub.queues && q in w.hub.registered && done == Complete(w.hub, Refused(w.work))
    ensures q in w.filters && q in done.queues && q in done.registered
    ensures Replay(done.queues[q], w.filters[q]) == done.view <==> Spared(w, q)
  {
    var work := Refused(w.work);
    var r := Replay(w.hub.queues[q], w.filters[q]);
    assert Heard(w.hub, w.work, q, w.filters[q], told);
    AnnouncementEnds(w.hub, work, q, w.filters[q], done);
    MissedMatters(work, ReachedAgain(w.hub, work, q), r, told, done.view);
    if q != w.hub.registered[w.work.next] && q !in w.hub.registered[w.work.next + 1..] {
      ReachedBefore(w.hub.registered, w.work.next, q);
    }
  }

  lemma {:induction false} DeliverAllTo(queues: map<QueueId, seq<Message>>, q: QueueId, messages: seq<Message>,
                                        p: QueueId)
    requires p in queues
    ensures p in DeliverAll(queues, q, messages)
    ensures DeliverAll(queues, q, messages)[p] == if p == q then queues[p] + messages else queues[p]
    decreases |messages|
  {
    if messages != [] {
      DeliverAllTo(Deliver(queues, q, messages[0]), q, messages[1..], p);
      Assoc(queues[p], [messages[0]], messages[1..]);
      Uncons(messages);
    }
  }

  /** Without the first of the messages that would have brought it there, a filter still arrives exactly when
      that message changes nothing. */
  lemma {:induction false} FirstMatters(pending: seq<Message>, r: View, view: View)
    requires Orderly(pending) && pending != [] && Replay(pending, r) == view
    ensures Replay(pending[1..], r) == view <==> Apply(pending[0], r) == r
  {
    assert Replay(pending, r) == Replay(pending[1..], Apply(pending[0], r));
    if |pending| == 2 {
      assert pending[1..] == [pending[1]] && pending[1..][1..] == [];
    }
  }

  lemma {:induction false} NothingMatters(pending: seq<Message>, view: View)
    requires Orderly(pending) && forall k :: 0 <= k < |pending| ==> Apply(pending[k], view) == view
    ensures Replay(pending, view) == view
  {
    if pending != [] {
      assert Replay(pending, view) == Replay(pending[1..], Apply(pending[0], view));
      if |pending| == 2 {
        assert pending[1..] == [pending[1]] && pending[1..][1..] == [];
        assert Replay([pending[1]], view) == Replay([], Apply(pending[1], view));
      }
    }
  }

  lemma RegistrationRefused(w: World, told: View, q: QueueId, done: Hub)
    requires Inv(w, told) && Enabled(w, MessageRefused) && w.work.Registering?
    requires q in w.hub.queues && Bound(w.hub, w.work, q) && done == Complete(w.hub, Refused(w.work))
    ensures q in w.filters && q in done.queues && q in done.registered
    ensures Replay(done.queues[q], w.filters[q]) == done.view <==> Spared(w, q)
  {
    var rest, r := w.work.pending[1..], Replay(w.hub.queues[q], w.filters[q]);
    assert Heard(w.hub, w.work, q, w.filters[q], told);
    RegisteringMeans(w.hub, w.work.queue, rest);
    DeliverAllTo(w.hub.queues, w.work.queue, rest, q);
    if q == w.work.queue {
      ReplayAppend(w.hub.queues[q], rest, w.filters[q]);
      if q in w.hub.registered {
        NothingMatters(rest, told);
      } else {
        FirstMatters(w.work.pending, r, told);
      }
    }
  }

  lemma ReachedBefore(registered: seq<QueueId>, next: nat, q: QueueId)
    requires next < |registered| && q in registered
    requires q != registered[next] && q !in registered[next + 1..]
    ensures q in registered[..next]
  {
    assert registered == registered[..next] + [registered[next]] + registered[next + 1..];
  }

  // ----- Sample runs

  lemma {:induction false} RunAppend(w: World, first: seq<Step>, second: seq<Step>)
    requires Run(w, first).Some?
    ensures Run(w, first + second) == Run(Run(w, first).value, second)
    decreases |first|
  {
    if first == [] {
      assert first + second == second;
    } else {
      assert (first + second)[1..] == first[1..] + second;
      RunAppend(Next(w, first[0]), first[1..], second);
    }
  }

  lemma OneStep(steps: seq<Step>, w: World, step: Step) returns (longer: seq<Step>, w': World)
    requires Run(START, steps) == Some(w) && Enabled(w, step)
    ensures longer == steps + [step] && w' == Next(w, step) && Run(START, longer) == Some(w')
  {
    longer, w' := steps + [step], Next(w, step);
    RunAppend(START, steps, [step]);
    assert [step][1..] == [];
  }

  /** A collector with one filter that waits to register. */
  lemma WaitingFilter() returns (steps: seq<Step>, w: World, uuid: Uuid)
    ensures Run(START, steps) == Some(w) && w.work.Idle? && w.config.Some? && w.waiting == [uuid] && |uuid| == 16
    ensures w.hub == Hub(BLANK, [], map[0 := []]) && w.names == map[uuid := 0] && w.filters == map[0 := BLANK]
  {
    uuid := seq(16, i => 0);
    steps, w := OneStep([], START, Configure(Config(LocalCollector, "", None, None, None, None)));
    steps, w := OneStep(steps, w, FilterStarts(uuid));
  }

  /** A collector with one filter that registered and handled its first message. */
  lemma OneFilter() returns (steps: seq<Step>, w: World)
    ensures Run(START, steps) == Some(w) && w.work.Idle? && w.config.Some?
    ensures w.hub == Hub(BLANK, [0], map[0 := []]) && w.filters == map[0 := BLANK]
  {
    var uuid;
    steps, w, uuid := WaitingFilter();
    steps, w := OneStep(steps, w, RegisterReady);
    var first := UpstreamUpdate(None);
    assert FirstMessages(BLANK) == [first];
    assert w.work == Registering(0, [first]);
    steps, w := OneStep(steps, w, CollectorWorks);
    assert w.work == Registering(0, []);
    steps, w := OneStep(steps, w, CollectorWorks);
    assert w.hub == Hub(BLANK, [0], map[0 := [first]]);
    steps, w := OneStep(steps, w, FilterReady(0));
  }

  /** A status other than not-found loses a message for good: the filter stays registered, has nothing
      left to handle, and has no policy although the collector does. */
  lemma RefusedMessagesDiverge(id: string, policy: Policy) returns (steps: seq<Step>, w: World)
    ensures Run(START, steps) == Some(w) && w.work.Idle? && !Converging(w)
    ensures w.hub == Hub(View(Some((id, policy)), None), [0], map[0 := []]) && w.filters == map[0 := BLANK]
  {
    steps, w := OneFilter();
    steps, w := OneStep(steps, w, PolicyArrives(id, policy));
    steps, w := OneStep(steps, w, MessageRefused);
    steps, w := OneStep(steps, w, CollectorWorks);
    assert 0 in w.hub.queues && 0 in w.hub.registered;
  }

  /** A collector with a policy that is about to send it to its first filter. */
  lemma PolicyToSend(id: string, policy: Policy) returns (steps: seq<Step>, w: World)
    ensures Run(START, steps) == Some(w) && w.filters == map[0 := BLANK]
    ensures w.hub == Hub(View(Some((id, policy)), None), [], map[0 := []])
    ensures w.work == Registering(0, [PolicyUpdate(id, policy), UpstreamUpdate(None)])
  {
    var uuid;
    steps, w, uuid := WaitingFilter();
    steps, w := OneStep(steps, w, PolicyArrives(id, policy));
    steps, w := OneStep(steps, w, CollectorWorks);
    assert w.hub.registered == [];
    steps, w := OneStep(steps, w, RegisterReady);
  }

  /** A filter whose first policy is refused is registered without the policy, and nothing more is sent. */
  lemma RefusedRegistrationDiverges(id: string, policy: Policy) returns (steps: seq<Step>, w: World)
    ensures Run(START, steps) == Some(w) && w.work.Idle? && !Converging(w)
    ensures w.hub == Hub(View(Some((id, policy)), None), [0], map[0 := [UpstreamUpdate(None)]])
    ensures w.filters == map[0 := BLANK]
  {
    var upstream := UpstreamUpdate(None);
    steps, w := PolicyToSend(id, policy);
    assert [PolicyUpdate(id, policy), upstream][1..] == [upstream] && [upstream][1..] == [];
    steps, w := OneStep(steps, w, MessageRefused);
    steps, w := OneStep(steps, w, CollectorWorks);
    assert [] + [upstream] == [upstream] && map[0 as QueueId := []][0 := [upstream]] == map[0 := [upstream]];
    assert w.hub.queues == map[0 := [upstream]];
    steps, w := OneStep(steps, w, CollectorWorks);
    assert Replay([upstream], BLANK) == BLANK;
    assert 0 in w.hub.queues && 0 in w.hub.registered && !ConvergesOn(w, 0);
  }

  /** An upstream that a filter is configured with itself is not the collector's. */
  lemma OwnUpstreamDiverges(config: Config) returns (steps: seq<Step>, w: World)
    requires config.upstreamCluster.Some? && config.deploymentName.Some?
    ensures Run(START, steps) == Some(w) && w.work.Idle? && !Converging(w)
  {
    steps, w := OneFilter();
    steps, w := OneStep(steps, w, FilterConfigured(0, config));
    assert 0 in w.hub.queues && 0 in w.hub.registered;
  }

  /** Neither is a policy of its own. */
  lemma OwnPolicyDiverges(config: Config) returns (steps: seq<Step>, w: World)
    requires config.localPolicy.Some?
    ensures Run(START, steps) == Some(w) && w.work.Idle? && !Converging(w)
  {
    steps, w := OneFilter();
    steps, w := OneStep(steps, w, FilterConfigured(0, config));
    assert 0 in w.hub.queues && 0 in w.hub.registered;
  }
}
