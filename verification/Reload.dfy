/** The two-stage reload pipeline of the agent as interleaved atomic steps:
    bootstrap refresh -> topoChanged -> re-render -> reload -> gateway. Both channels
    hold at most one token and are sent to without blocking. */
module Reload {
  import opened Wrappers
  import opened Policy

  /** What a policy is rendered from: the content of topology.json and the adopted pod
      CIDRs. A rendered file is represented by the snapshot it was rendered from. */
  datatype Snapshot = Snapshot(topology: string, podCIDRs: seq<string>)

  /** The refresh loop of `bootstrap.Run`. `prior` is the real content before the fetch,
      `before` and `after` are what the two reads returned ("" when a read failed). */
  datatype Fetcher =
    | Waiting
    | Fetching(before: string)
    | Replaced(before: string, prior: string)
    | Compared(before: string, after: string, prior: string)

  /** The re-render goroutine, by the last thing it did. */
  datatype Renderer =
    | Selecting
    | Triggered
    | Rendered(snap: Snapshot)
    | TrafficOpen(snap: Snapshot)
    | TrafficDone(snap: Snapshot)
    | RoutingOpen(snap: Snapshot)
    | RoutingDone(snap: Snapshot)

  /** The gateway's loader: it re-reads both files, in either order, for every token. */
  datatype Gateway =
    | Idle
    | Reading(traffic: Option<File<Snapshot>>, routing: Option<File<Snapshot>>)

  datatype State = State(
    topology: string,
    podCIDRs: seq<string>,
    fetcher: Fetcher,
    topoChanged: bool,
    renderer: Renderer,
    traffic: File<Snapshot>,
    routing: File<Snapshot>,
    reload: bool,
    startup: bool,
    gateway: Gateway,
    loaded: Option<(File<Snapshot>, File<Snapshot>)>,
    suspect: bool)
  {
    function Current(): Snapshot { Snapshot(topology, podCIDRs) }
  }

  /** After the initial fetch and render; the gateway still owes its own first token. */
  function Start(topology: string, podCIDRs: seq<string>): State {
    var first := Whole(Snapshot(topology, podCIDRs));
    State(topology, podCIDRs, Waiting, false, Selecting, first, first, false, true, Idle, None, false)
  }

  /** One atomic step, with what the environment decides. `suspect` is bookkeeping: it is
      raised by a re-render that fails and by a changed topology whose two reads around
      the fetch both failed, and lowered when a re-render has read the topology again. */
  datatype Label =
    | BeginFetch(readOk: bool)
    | FetchFailed
    | FetchDone(topology: string)
    | ReadAfter(readOk: bool)
    | Notify
    | TakeChanged
    | Tick(podCIDRs: seq<string>)
    | ReadInput(ok: bool)
    | OpenTraffic
    | WriteTraffic(ok: bool)
    | OpenRouting
    | WriteRouting(ok: bool)
    | SendReload
    | StartupSend
    | TakeReload
    | LoadTraffic
    | LoadRouting
    | Publish

  predicate Enabled(s: State, l: Label) {
    match l
    case BeginFetch(_) => s.fetcher.Waiting?
    case FetchFailed => s.fetcher.Fetching?
    case FetchDone(t) => s.fetcher.Fetching? && t != ""
    case ReadAfter(_) => s.fetcher.Replaced?
    case Notify => s.fetcher.Compared?
    case TakeChanged => s.renderer.Selecting? && s.topoChanged
    case Tick(_) => s.renderer.Selecting?
    case ReadInput(_) => s.renderer.Triggered?
    case OpenTraffic => s.renderer.Rendered?
    case WriteTraffic(_) => s.renderer.TrafficOpen?
    case OpenRouting => s.renderer.TrafficDone?
    case WriteRouting(_) => s.renderer.RoutingOpen?
    case SendReload => s.renderer.RoutingDone?
    case StartupSend => s.startup && !s.reload
    case TakeReload => s.gateway.Idle? && s.reload
    case LoadTraffic => s.gateway.Reading? && s.gateway.traffic.None?
    case LoadRouting => s.gateway.Reading? && s.gateway.routing.None?
    case Publish => s.gateway.Reading? && s.gateway.traffic.Some? && s.gateway.routing.Some?
  }

  function Apply(s: State, l: Label): State
    requires Enabled(s, l)
  {
    match l
    case BeginFetch(ok) => s.(fetcher := Fetching(if ok then s.topology else ""))
    case FetchFailed => s.(fetcher := Waiting)
    case FetchDone(t) => s.(topology := t, fetcher := Replaced(s.fetcher.before, s.topology))
    case ReadAfter(ok) =>
      s.(fetcher := Compared(s.fetcher.before, if ok then s.topology else "", s.fetcher.prior))
    case Notify =>
      s.(fetcher := Waiting,
         topoChanged := s.topoChanged || s.fetcher.before != s.fetcher.after,
         suspect := s.suspect || (s.fetcher.before == s.fetcher.after && s.fetcher.prior != s.topology))
    case TakeChanged => s.(topoChanged := false, renderer := Triggered)
    case Tick(p) => if p == s.podCIDRs then s else s.(podCIDRs := p, renderer := Triggered)
    case ReadInput(ok) =>
      if ok then s.(renderer := Rendered(s.Current()), suspect := false)
      else s.(renderer := Selecting, suspect := true)
    case OpenTraffic => s.(traffic := Torn, renderer := TrafficOpen(s.renderer.snap))
    case WriteTraffic(ok) =>
      if ok then s.(traffic := Whole(s.renderer.snap), renderer := TrafficDone(s.renderer.snap))
      else s.(renderer := Selecting, suspect := true)
    case OpenRouting => s.(routing := Torn, renderer := RoutingOpen(s.renderer.snap))
    case WriteRouting(ok) =>
      if ok then s.(routing := Whole(s.renderer.snap), renderer := RoutingDone(s.renderer.snap))
      else s.(renderer := Selecting, suspect := true)
    case SendReload => s.(reload := true, renderer := Selecting)
    case StartupSend => s.(reload := true, startup := false)
    case TakeReload => s.(reload := false, gateway := Reading(None, None))
    case LoadTraffic => s.(gateway := s.gateway.(traffic := Some(s.traffic)))
    case LoadRouting => s.(gateway := s.gateway.(routing := Some(s.routing)))
    case Publish => s.(gateway := Idle, loaded := Some((s.gateway.traffic.value, s.gateway.routing.value)))
  }

  /** The state after a sequence of steps, or `None` if some step is not possible. */
  function Run(s: State, labels: seq<Label>): Option<State>
    decreases |labels|
  {
    if labels == [] then Some(s)
    else if !Enabled(s, labels[0]) then None
    else Run(Apply(s, labels[0]), labels[1..])
  }

  // ---- The invariant ----

  /** The fetcher replaced the topology and has not yet compared. */
  predicate Owes(s: State) {
    (s.fetcher.Replaced? || s.fetcher.Compared?) && s.fetcher.prior != s.topology
  }

  /** The reads of the fetcher returned the real content or failed. */
  predicate ReadsHonest(s: State) {
    && s.topology != ""
    && (s.fetcher.Fetching? ==> s.fetcher.before in {s.topology, ""})
    && (s.fetcher.Replaced? || s.fetcher.Compared? ==> s.fetcher.prior != "" && s.fetcher.before in {s.fetcher.prior, ""})
    && (s.fetcher.Compared? ==> s.fetcher.after in {s.topology, ""})
  }

  /** The renderer has rendered, is rendering, or is about to render the current snapshot. */
  predicate RenderFresh(s: State) {
    match s.renderer
    case Selecting => s.traffic == s.routing == Whole(s.Current())
    case Triggered => true
    case Rendered(snap) => snap == s.Current()
    case TrafficOpen(snap) => snap == s.Current()
    case TrafficDone(snap) => snap == s.Current() && s.traffic == Whole(snap)
    case RoutingOpen(snap) => snap == s.Current() && s.traffic == Whole(snap)
    case RoutingDone(snap) => snap == s.Current() && s.traffic == s.routing == Whole(snap)
  }

  /** A file is open or about to be: a reload token follows unless the render fails. */
  predicate Writing(s: State) {
    !s.renderer.Selecting? && !s.renderer.Triggered?
  }

  /** What the gateway has read so far is what the files hold now. */
  predicate GatewayInSync(s: State) {
    match s.gateway
    case Idle => s.loaded == Some((s.traffic, s.routing))
    case Reading(t, r) => (t.Some? ==> t.value == s.traffic) && (r.Some? ==> r.value == s.routing)
  }

  predicate Inv(s: State) {
    && ReadsHonest(s)
    && (!s.suspect ==> s.topoChanged || Owes(s) || RenderFresh(s))
    && (!s.suspect ==> s.reload || s.startup || Writing(s) || GatewayInSync(s))
  }

  predicate OfFetcher(l: Label) { l.BeginFetch? || l.FetchFailed? || l.FetchDone? || l.ReadAfter? || l.Notify? }

  predicate OfGateway(l: Label) { l.StartupSend? || l.TakeReload? || l.LoadTraffic? || l.LoadRouting? || l.Publish? }

  lemma FetcherKeeps(s: State, l: Label)
    requires Inv(s) && Enabled(s, l) && OfFetcher(l)
    ensures Inv(Apply(s, l))
  {
  }

  lemma GatewayKeeps(s: State, l: Label)
    requires Inv(s) && Enabled(s, l) && OfGateway(l)
    ensures Inv(Apply(s, l))
  {
  }

  predicate OfTrigger(l: Label) { l.TakeChanged? || l.Tick? || l.ReadInput? }

  lemma TriggerKeeps(s: State, l: Label)
    requires Inv(s) && Enabled(s, l) && OfTrigger(l)
    ensures Inv(Apply(s, l))
  {
  }

  lemma WriteKeeps(s: State, l: Label)
    requires Inv(s) && Enabled(s, l) && !OfFetcher(l) && !OfGateway(l) && !OfTrigger(l)
    ensures Inv(Apply(s, l))
  {
  }

  /** Every step of every goroutine keeps the invariant. */
  lemma StepKeeps(s: State, l: Label)
    requires Inv(s) && Enabled(s, l)
    ensures Inv(Apply(s, l))
  {
    if OfFetcher(l) {
      FetcherKeeps(s, l);
    } else if OfGateway(l) {
      GatewayKeeps(s, l);
    } else if OfTrigger(l) {
      TriggerKeeps(s, l);
    } else {
      WriteKeeps(s, l);
    }
  }

  lemma {:induction false} RunKeeps(s: State, labels: seq<Label>)
    requires Inv(s) && Run(s, labels).Some?
    ensures Inv(Run(s, labels).value)
    decreases |labels|
  {
    if labels != [] {
      StepKeeps(s, labels[0]);
      RunKeeps(Apply(s, labels[0]), labels[1..]);
    }
  }

  /** Both channels are empty and no goroutine is in the middle of a step. */
  predicate Quiescent(s: State) {
    s.fetcher.Waiting? && !s.topoChanged && s.renderer.Selecting? && !s.reload && !s.startup && s.gateway.Idle?
  }

  predicate UpToDate(s: State) {
    s.loaded == Some((Whole(s.Current()), Whole(s.Current())))
  }

  /** No lost update: in every interleaving, once the pipeline is quiescent, the gateway
      has loaded the policies of the current topology and pod CIDRs, unless a fault after
      the last read of the topology by a re-render went unrepaired. */
  lemma NoLostUpdate(topology: string, podCIDRs: seq<string>, labels: seq<Label>)
    requires topology != "" && Run(Start(topology, podCIDRs), labels).Some?
    ensures var s := Run(Start(topology, podCIDRs), labels).value;
            Quiescent(s) && !s.suspect ==> UpToDate(s)
  {
    RunKeeps(Start(topology, podCIDRs), labels);
  }

  /** A step is faulty when a re-render fails, or a read around a fetch fails. */
  predicate Faulty(l: Label) {
    match l
    case BeginFetch(ok) => !ok
    case ReadAfter(ok) => !ok
    case ReadInput(ok) => !ok
    case WriteTraffic(ok) => !ok
    case WriteRouting(ok) => !ok
    case _ => false
  }

  predicate Unfooled(s: State) {
    && !s.suspect
    && (s.fetcher.Fetching? ==> s.fetcher.before == s.topology)
    && (s.fetcher.Replaced? || s.fetcher.Compared? ==> s.fetcher.before == s.fetcher.prior)
    && (s.fetcher.Compared? ==> s.fetcher.after == s.topology)
  }

  lemma {:induction false} FaultFree(s: State, labels: seq<Label>)
    requires Unfooled(s) && Run(s, labels).Some? && forall i | 0 <= i < |labels| :: !Faulty(labels[i])
    ensures Unfooled(Run(s, labels).value)
    decreases |labels|
  {
    if labels != [] {
      assert !Faulty(labels[0]);
      FaultFree(Apply(s, labels[0]), labels[1..]);
    }
  }

  /** Without faults every quiescent state is up to date. */
  lemma FaultFreeConverges(topology: string, podCIDRs: seq<string>, labels: seq<Label>)
    requires topology != "" && Run(Start(topology, podCIDRs), labels).Some?
    requires forall i | 0 <= i < |labels| :: !Faulty(labels[i])
    ensures var s := Run(Start(topology, podCIDRs), labels).value;
            Quiescent(s) ==> UpToDate(s)
  {
    NoLostUpdate(topology, podCIDRs, labels);
    FaultFree(Start(topology, podCIDRs), labels);
  }

  // ---- Every schedule drains ----

  /** A step that brings in nothing new: everything but a new fetch and a new tick. */
  predicate Internal(l: Label) { !l.BeginFetch? && !l.Tick? }

  function FetcherRank(f: Fetcher): nat {
    match f case Waiting => 0 case Compared(_, _, _) => 12 case Replaced(_, _) => 13 case Fetching(_) => 14
  }

  function RendererRank(r: Renderer): nat {
    match r
    case Selecting => 0 case RoutingDone(_) => 5 case RoutingOpen(_) => 6 case TrafficDone(_) => 7
    case TrafficOpen(_) => 8 case Rendered(_) => 9 case Triggered => 10
  }

  function GatewayRank(g: Gateway): nat {
    if g.Idle? then 0 else 1 + (if g.traffic.None? then 1 else 0) + (if g.routing.None? then 1 else 0)
  }

  function TokenRank(topoChanged: bool, reload: bool, startup: bool): nat {
    (if topoChanged then 11 else 0) + (if reload then 4 else 0) + (if startup then 5 else 0)
  }

  /** How much is left to do. */
  function Pending(s: State): nat {
    FetcherRank(s.fetcher) + RendererRank(s.renderer) + GatewayRank(s.gateway) + TokenRank(s.topoChanged, s.reload, s.startup)
  }

  lemma FetcherProgress(s: State, l: Label)
    requires Enabled(s, l) && OfFetcher(l) && Internal(l)
    ensures Pending(Apply(s, l)) < Pending(s)
  {
  }

  lemma GatewayProgress(s: State, l: Label)
    requires Enabled(s, l) && OfGateway(l)
    ensures Pending(Apply(s, l)) < Pending(s)
  {
  }

  lemma RendererProgress(s: State, l: Label)
    requires Enabled(s, l) && Internal(l) && !OfFetcher(l) && !OfGateway(l)
    ensures Pending(Apply(s, l)) < Pending(s)
  {
  }

  /** Every internal step, faulty or not, leaves less to do. */
  lemma Progress(s: State, l: Label)
    requires Enabled(s, l) && Internal(l)
    ensures Pending(Apply(s, l)) < Pending(s)
  {
    if OfFetcher(l) {
      FetcherProgress(s, l);
    } else if OfGateway(l) {
      GatewayProgress(s, l);
    } else {
      RendererProgress(s, l);
    }
  }

  /** A step that works off what is pending, without a fault. */
  function NextStep(s: State): Label
    requires !Quiescent(s)
  {
    match s.fetcher
    case Fetching(_) => FetchFailed
    case Replaced(_, _) => ReadAfter(true)
    case Compared(_, _, _) => Notify
    case Waiting =>
      match s.renderer
      case Triggered => ReadInput(true)
      case Rendered(_) => OpenTraffic
      case TrafficOpen(_) => WriteTraffic(true)
      case TrafficDone(_) => OpenRouting
      case RoutingOpen(_) => WriteRouting(true)
      case RoutingDone(_) => SendReload
      case Selecting =>
        if s.topoChanged then TakeChanged
        else if s.gateway.Reading? then
          if s.gateway.traffic.None? then LoadTraffic else if s.gateway.routing.None? then LoadRouting else Publish
        else if s.reload then TakeReload
        else StartupSend
  }

  /** No token is ever stuck: unless the state is quiescent, some internal step that is not
      a fault is possible. */
  lemma NeverStuck(s: State)
    requires !Quiescent(s)
    ensures var l := NextStep(s); Enabled(s, l) && Internal(l) && !Faulty(l)
  {
  }

  ghost predicate AllInternal(labels: seq<Label>) {
    forall i | 0 <= i < |labels| :: Internal(labels[i])
  }

  /** Every schedule without new input is over within `Pending(s)` steps, and a schedule
      that cannot be continued has ended in quiescence. */
  lemma {:induction false} EveryScheduleDrains(s: State, labels: seq<Label>)
    requires Run(s, labels).Some? && AllInternal(labels)
    ensures |labels| + Pending(Run(s, labels).value) <= Pending(s)
    ensures (forall l | Internal(l) && !Faulty(l) :: !Enabled(Run(s, labels).value, l)) ==> Quiescent(Run(s, labels).value)
    decreases |labels|
  {
    if labels == [] {
      if !Quiescent(s) { NeverStuck(s); }
    } else {
      Progress(s, labels[0]);
      EveryScheduleDrains(Apply(s, labels[0]), labels[1..]);
    }
  }

  lemma {:induction false} RunConcat(s: State, a: seq<Label>, b: seq<Label>)
    requires Run(s, a).Some?
    ensures Run(s, a + b) == Run(Run(s, a).value, b)
    decreases |a|
  {
    if a == [] {
      assert a + b == b;
    } else {
      assert (a + b)[1..] == a[1..] + b;
      RunConcat(Apply(s, a[0]), a[1..], b);
    }
  }

  /** After any fault-free run, every fault-free schedule without new input ends within a
      bounded number of steps, and where it cannot go on the gateway is up to date. */
  lemma EveryScheduleUpToDate(topology: string, podCIDRs: seq<string>, labels: seq<Label>, s: State, more: seq<Label>, t: State)
    requires topology != "" && Run(Start(topology, podCIDRs), labels) == Some(s) && Run(s, more) == Some(t)
    requires forall i | 0 <= i < |labels| :: !Faulty(labels[i])
    requires AllInternal(more) && forall i | 0 <= i < |more| :: !Faulty(more[i])
    ensures |more| <= Pending(s)
    ensures (forall l | Internal(l) && !Faulty(l) :: !Enabled(t, l)) ==> UpToDate(t)
  {
    EveryScheduleDrains(s, more);
    RunConcat(Start(topology, podCIDRs), labels, more);
    FaultFreeConverges(topology, podCIDRs, labels + more);
  }

  // ---- Exactly which faults lose updates ----

  lemma RunCons(s: State, l: Label, rest: seq<Label>)
    requires Enabled(s, l)
    ensures Run(s, [l] + rest) == Run(Apply(s, l), rest)
  {
    assert ([l] + rest)[1..] == rest;
  }

  const LOAD: seq<Label> := [TakeReload] + ([LoadTraffic] + ([LoadRouting] + ([Publish] + [])))

  /** One pass of the re-render goroutine and the loads that follow it, by the outcomes of
      its read and its two writes. */
  function RoutingPass(written: bool): seq<Label> {
    [OpenRouting] + ([WriteRouting(written)] + (if written then [SendReload] + LOAD else []))
  }

  function TrafficPass(traffic: bool, routing: bool): seq<Label> {
    [OpenTraffic] + ([WriteTraffic(traffic)] + (if traffic then RoutingPass(routing) else []))
  }

  function Pass(read: bool, traffic: bool, routing: bool): seq<Label> {
    [ReadInput(read)] + (if read then TrafficPass(traffic, routing) else [])
  }

  lemma LoadRuns(s: State)
    requires s.gateway.Idle? && s.reload
    ensures Run(s, LOAD) == Some(s.(reload := false, loaded := Some((s.traffic, s.routing))))
  {
    var t := Apply(s, TakeReload);
    var u := Apply(t, LoadTraffic);
    var v := Apply(u, LoadRouting);
    RunCons(s, TakeReload, [LoadTraffic] + ([LoadRouting] + ([Publish] + [])));
    RunCons(t, LoadTraffic, [LoadRouting] + ([Publish] + []));
    RunCons(u, LoadRouting, [Publish] + []);
    RunCons(v, Publish, []);
  }

  lemma RoutingRuns(s: State, written: bool)
    requires s.renderer.TrafficDone? && s.gateway.Idle? && !s.reload
    ensures var w := Whole(s.renderer.snap);
            Run(s, RoutingPass(written)) == Some(
              if written then s.(renderer := Selecting, routing := w, loaded := Some((s.traffic, w)))
              else s.(renderer := Selecting, routing := Torn, suspect := true))
  {
    var t := Apply(s, OpenRouting);
    var u := Apply(t, WriteRouting(written));
    var rest := if written then [SendReload] + LOAD else [];
    RunCons(s, OpenRouting, [WriteRouting(written)] + rest);
    RunCons(t, WriteRouting(written), rest);
    if written {
      RunCons(u, SendReload, LOAD);
      LoadRuns(Apply(u, SendReload));
    }
  }

  lemma TrafficRuns(s: State, traffic: bool, routing: bool)
    requires s.renderer.Rendered? && s.gateway.Idle? && !s.reload
    ensures Run(s, TrafficPass(traffic, routing)).Some?
    ensures var u := Run(s, TrafficPass(traffic, routing)).value;
            var w := Whole(s.renderer.snap);
            && u == s.(renderer := Selecting, traffic := u.traffic, routing := u.routing, loaded := u.loaded, suspect := u.suspect)
            && u.loaded == (if traffic && routing then Some((w, w)) else s.loaded)
            && u.traffic == (if traffic then w else Torn)
            && u.routing == (if !traffic then s.routing else if routing then w else Torn)
  {
    var t := Apply(s, OpenTraffic);
    var u := Apply(t, WriteTraffic(traffic));
    var rest := if traffic then RoutingPass(routing) else [];
    RunCons(s, OpenTraffic, [WriteTraffic(traffic)] + rest);
    RunCons(t, WriteTraffic(traffic), rest);
    if traffic {
      RoutingRuns(u, routing);
    }
  }

  /** From every quiescent, up-to-date state: a pod CIDR change reaches the gateway if and
      only if the read and both writes of its re-render succeed, and a loss is final for
      every later tick, since the CIDRs were adopted before the render. A failed write
      leaves its file torn, and a failed second write leaves the pair mixed. */
  lemma ChangeReachesGatewayIff(s: State, podCIDRs: seq<string>, read: bool, traffic: bool, routing: bool)
    requires Quiescent(s) && UpToDate(s) && podCIDRs != s.podCIDRs
    ensures Run(s, [Tick(podCIDRs)] + Pass(read, traffic, routing)).Some?
    ensures var t := Run(s, [Tick(podCIDRs)] + Pass(read, traffic, routing)).value;
            && Quiescent(t)
            && (UpToDate(t) <==> read && traffic && routing)
            && (!read ==> t.traffic == s.traffic && t.routing == s.routing)
            && (read && !traffic ==> t.traffic == Torn && t.routing == s.routing)
            && (read && traffic && !routing ==> t.traffic == Whole(t.Current()) && t.routing == Torn)
            && Apply(t, Tick(podCIDRs)) == t
  {
    RunCons(s, Tick(podCIDRs), Pass(read, traffic, routing));
    var t := Apply(s, Tick(podCIDRs));
    RunCons(t, ReadInput(read), if read then TrafficPass(traffic, routing) else []);
    if read {
      TrafficRuns(Apply(t, ReadInput(read)), traffic, routing);
    }
  }

  /** From every quiescent, up-to-date state: a changed topology raises the notification if
      and only if one of the two reads of topology.json around the fetch succeeds, and if
      both fail the pipeline is quiescent and stale; an unchanged one raises it if and only
      if exactly one of the reads fails. */
  lemma TopologyNoticedIff(s: State, topology: string, before: bool, after: bool)
    requires Quiescent(s) && UpToDate(s) && ReadsHonest(s) && topology != ""
    ensures var t := Run(s, [BeginFetch(before)] + ([FetchDone(topology)] + ([ReadAfter(after)] + ([Notify] + []))));
            && t.Some?
            && (t.value.topoChanged <==> if topology != s.topology then before || after else before != after)
            && (Quiescent(t.value) <==> !t.value.topoChanged)
            && (UpToDate(t.value) <==> topology == s.topology)
  {
    var t := Apply(s, BeginFetch(before));
    var u := Apply(t, FetchDone(topology));
    var v := Apply(u, ReadAfter(after));
    RunCons(s, BeginFetch(before), [FetchDone(topology)] + ([ReadAfter(after)] + ([Notify] + [])));
    RunCons(t, FetchDone(topology), [ReadAfter(after)] + ([Notify] + []));
    RunCons(u, ReadAfter(after), [Notify] + []);
    RunCons(v, Notify, []);
  }
}
