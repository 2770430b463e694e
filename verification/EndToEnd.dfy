/** The deny list through the whole agent: from the reconciled spec, over any
    interleaving of refreshes and re-renders, to what the gateway has loaded. */
module EndToEnd {
  import opened Wrappers
  import opened Prefixes
  import opened Cluster
  import opened Policy
  import opened PolicyText
  import opened DenyList
  import opened AgentConfig
  import opened Guardrail
  import Bootstrap
  import Reload

  /** The input renders, the rendered text parses, and it admits exactly what no denied
      CIDR contains, from exactly the given remotes. */
  ghost predicate Enforces(inp: Input, remotes: seq<string>, localIA: string, denied: set<string>) {
    && Preparable(inp)
    && var rules := ParsePolicy(RoutingText(inp));
    && rules.Some?
    && forall from, to, a: nat ::
         Accepts(rules.value, from, to, a)
         <==> from in remotes && to == localIA && a < SPACE && !Denied(a, denied)
  }

  /** The rendered text announces to the remotes of the spec exactly the nets the spec has
      announced for the node. */
  ghost predicate Announces(inp: Input, spec: Spec, localIA: string, info: NodeInfo) {
    && Preparable(inp)
    && var rules := ParsePolicy(RoutingText(inp));
    && rules.Some?
    && forall x: Rule | x.action == Advertise ::
         x in rules.value <==> x.from == localIA && x.to in spec.isdASes && AnnouncesOne(x.nets, spec, info)
  }

  /** What the policies of a snapshot are rendered from; `isdAs` reads the topology document. */
  function InputOf(spec: Spec, list: seq<string>, isdAs: string -> string, ip: string, snap: Reload.Snapshot): Input {
    AgentInput(spec, list, isdAs(snap.topology), NodeInfo(snap.podCIDRs, ip))
  }

  lemma InputEnforces(spec: Spec, api: Api, list: seq<string>, isdAs: string -> string, ip: string, snap: Reload.Snapshot)
    requires Enumerates(list, Sources(spec, api)) && Sources(spec, api) != {}
    requires exists b: nat :: b < SPACE && !Denied(b, Sources(spec, api))
    requires spec.isdASes != [] && (forall i | 0 <= i < |spec.isdASes| :: IsdAs(spec.isdASes[i]))
    requires Column(isdAs(snap.topology))
    ensures Enforces(InputOf(spec, list, isdAs, ip, snap), spec.isdASes, isdAs(snap.topology), Sources(spec, api))
  {
    DenyListReachesGateway(spec, api, list, isdAs(snap.topology), NodeInfo(snap.podCIDRs, ip));
  }

  lemma InputAnnounces(spec: Spec, api: Api, list: seq<string>, isdAs: string -> string, ip: string, snap: Reload.Snapshot)
    requires Enumerates(list, Sources(spec, api)) && Sources(spec, api) != {}
    requires exists b: nat :: b < SPACE && !Denied(b, Sources(spec, api))
    requires spec.isdASes != [] && (forall i | 0 <= i < |spec.isdASes| :: IsdAs(spec.isdASes[i]))
    requires Column(isdAs(snap.topology))
    ensures Announces(InputOf(spec, list, isdAs, ip, snap), spec, isdAs(snap.topology), NodeInfo(snap.podCIDRs, ip))
  {
    var info, ia := NodeInfo(snap.podCIDRs, ip), isdAs(snap.topology);
    SourcesAreV4(spec, api);
    AnnouncementsReachGateway(spec, Sources(spec, api), list, ia, info, Rule(Advertise, "", "", []));
    var rules := ParsePolicy(RoutingText(InputOf(spec, list, isdAs, ip, snap)));
    forall x: Rule | x.action == Advertise
      ensures x in rules.value <==> x.from == ia && x.to in spec.isdASes && AnnouncesOne(x.nets, spec, info)
    {
      AnnouncementsReachGateway(spec, Sources(spec, api), list, ia, info, x);
    }
  }

  /** In every fault-free interleaving, whenever the pipeline is quiescent, the routing
      policy the gateway has loaded was rendered whole, it enforces the deny list of the
      cluster for the current topology, and it announces the current pod CIDRs as the spec
      asks. */
  lemma LoadedPolicyEnforces(
      spec: Spec, api: Api, list: seq<string>, isdAs: string -> string, ip: string,
      topology: string, podCIDRs: seq<string>, labels: seq<Reload.Label>, s: Reload.State)
    requires Enumerates(list, Sources(spec, api)) && Sources(spec, api) != {}
    requires exists b: nat :: b < SPACE && !Denied(b, Sources(spec, api))
    requires spec.isdASes != [] && (forall i | 0 <= i < |spec.isdASes| :: IsdAs(spec.isdASes[i]))
    requires topology != "" && Reload.Run(Reload.Start(topology, podCIDRs), labels) == Some(s)
    requires forall i | 0 <= i < |labels| :: !Reload.Faulty(labels[i])
    requires Reload.Quiescent(s) && Column(isdAs(s.topology))
    ensures s.loaded.Some? && s.loaded.value.1.Whole?
    ensures Enforces(InputOf(spec, list, isdAs, ip, s.loaded.value.1.content),
                     spec.isdASes, isdAs(s.topology), Sources(spec, api))
    ensures Announces(InputOf(spec, list, isdAs, ip, s.loaded.value.1.content), spec, isdAs(s.topology), NodeInfo(s.podCIDRs, ip))
  {
    Reload.FaultFreeConverges(topology, podCIDRs, labels);
    InputEnforces(spec, api, list, isdAs, ip, s.Current());
    InputAnnounces(spec, api, list, isdAs, ip, s.Current());
  }

  /** Some fetch could have written this topology: its download passed every check, and
      `isdAs` reads the same IA from it. */
  ghost predicate Delivered(t: string, isdAs: string -> string, pins: map<string, Bootstrap.Pin>) {
    exists a :: Bootstrap.Verified(a, pins) && Bootstrap.Downloaded(a).value.topology == t && a.isdAs == Some(isdAs(t))
  }

  ghost predicate AllDelivered(labels: seq<Reload.Label>, isdAs: string -> string, pins: map<string, Bootstrap.Pin>) {
    forall i | 0 <= i < |labels| && labels[i].FetchDone? :: Delivered(labels[i].topology, isdAs, pins)
  }

  /** The input depends on the snapshot only through the IA and the advertised nets, so a
      snapshot with an IA passes the guardrails if another one did. */
  lemma StillPreparable(spec: Spec, list: seq<string>, isdAs: string -> string, ip: string, x: Reload.Snapshot, y: Reload.Snapshot)
    requires Preparable(InputOf(spec, list, isdAs, ip, x)) && isdAs(y.topology) != ""
    ensures Preparable(InputOf(spec, list, isdAs, ip, y))
  {
  }

  lemma {:induction false} KeepsIA(s: Reload.State, labels: seq<Reload.Label>, isdAs: string -> string, pins: map<string, Bootstrap.Pin>)
    requires isdAs(s.topology) != "" && Reload.Run(s, labels).Some? && AllDelivered(labels, isdAs, pins)
    ensures isdAs(Reload.Run(s, labels).value.topology) != ""
    decreases |labels|
  {
    if labels != [] {
      if labels[0].FetchDone? {
        assert Delivered(labels[0].topology, isdAs, pins);
      }
      KeepsIA(Reload.Apply(s, labels[0]), labels[1..], isdAs, pins);
    }
  }

  /** Once the first render passed the guardrails, they never refuse a re-render: in every
      state of every run in which topologies come from fetches, with any faults and any pod
      CIDRs, the current snapshot renders. Only I/O can make a re-render fail. */
  lemma RerenderNeverRefused(
      spec: Spec, list: seq<string>, isdAs: string -> string, ip: string, pins: map<string, Bootstrap.Pin>,
      topology: string, podCIDRs: seq<string>, labels: seq<Reload.Label>, s: Reload.State)
    requires Preparable(InputOf(spec, list, isdAs, ip, Reload.Snapshot(topology, podCIDRs)))
    requires Reload.Run(Reload.Start(topology, podCIDRs), labels) == Some(s) && AllDelivered(labels, isdAs, pins)
    ensures Preparable(InputOf(spec, list, isdAs, ip, s.Current()))
  {
    KeepsIA(Reload.Start(topology, podCIDRs), labels, isdAs, pins);
    StillPreparable(spec, list, isdAs, ip, Reload.Snapshot(topology, podCIDRs), s.Current());
  }
}
