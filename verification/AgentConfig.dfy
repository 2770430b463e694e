/** The way from the DaemonSet environment to the agent's policy input. */
module AgentConfig {
  import opened Wrappers
  import opened Text
  import opened Prefixes
  import opened Cluster
  import opened Policy
  import opened CidrSubtraction

  /** The environment variables of the DaemonSet that carry policy. */
  datatype Env = Env(acceptISDASes: string, forbiddenCIDRs: string, advertisePodCIDR: string, advertiseNodeIP: string)

  datatype Config = Config(acceptISDASes: string, forbiddenCIDRs: string, advertisePodCIDR: bool, advertiseNodeIP: bool)

  datatype NodeInfo = NodeInfo(podCIDRs: seq<string>, internalIP: string)

  function BoolOr(b: Option<bool>, def: bool): bool {
    if b.None? then def else b.value
  }

  function BoolStr(b: bool): string {
    if b then "true" else "false"
  }

  /** The policy part of the environment built by `DaemonSet`. */
  function DaemonSetEnv(spec: Spec, forbidden: seq<string>): Env {
    Env(Join(spec.isdASes, ','), Join(forbidden, ','), BoolStr(BoolOr(spec.podCIDR, true)), BoolStr(BoolOr(spec.nodeIP, false)))
  }

  /** `strconv.ParseBool`. */
  function ParseBool(s: string): Option<bool> {
    if s in {"1", "t", "T", "TRUE", "true", "True"} then Some(true)
    else if s in {"0", "f", "F", "FALSE", "false", "False"} then Some(false)
    else None
  }

  function GetenvBool(v: string, def: bool): bool {
    if v == "" || ParseBool(v).None? then def else ParseBool(v).value
  }

  /** The policy part of `config.FromEnv`. */
  function FromEnv(env: Env): Config {
    Config(env.acceptISDASes, env.forbiddenCIDRs, GetenvBool(env.advertisePodCIDR, true), GetenvBool(env.advertiseNodeIP, false))
  }

  /** For every environment: the switch for pod CIDRs is on unless its variable reads as
      false, the one for the node address off unless it reads as true. */
  lemma SwitchMeaning(env: Env)
    ensures FromEnv(env).advertisePodCIDR <==> ParseBool(env.advertisePodCIDR) != Some(false)
    ensures FromEnv(env).advertiseNodeIP <==> ParseBool(env.advertiseNodeIP) == Some(true)
  {
  }

  // ---- split ----

  function TrimNonEmpty(parts: seq<string>): seq<string> {
    if parts == [] then []
    else (if TrimSpace(parts[0]) != "" then [TrimSpace(parts[0])] else []) + TrimNonEmpty(parts[1..])
  }

  /** The value of `split(s)`. */
  function SplitList(s: string): seq<string> {
    TrimNonEmpty(SplitOn(s, ','))
  }

  method Split(s: string) returns (out: seq<string>)
    ensures out == SplitList(s)
  {
    var parts := SplitOn(s, ',');
    out := [];
    for i := 0 to |parts|
      invariant out + TrimNonEmpty(parts[i..]) == TrimNonEmpty(parts)
    {
      var p := TrimSpace(parts[i]);
      assert parts[i..][1..] == parts[i + 1..];
      if p != "" {
        assert (out + [p]) + TrimNonEmpty(parts[i + 1..]) == out + ([p] + TrimNonEmpty(parts[i + 1..]));
        out := out + [p];
      } else {
        assert [] + TrimNonEmpty(parts[i + 1..]) == TrimNonEmpty(parts[i + 1..]);
      }
    }
    assert out + [] == out;
  }

  /** A list entry that survives joining with commas and splitting again. */
  predicate Entry(s: string) {
    s != "" && NoSpace(s) && ',' !in s
  }

  lemma {:induction false} TrimKeeps(parts: seq<string>)
    requires forall i | 0 <= i < |parts| :: Entry(parts[i])
    ensures TrimNonEmpty(parts) == parts
  {
    if parts != [] {
      TrimKeeps(parts[1..]);
      assert Entry(parts[0]);
      assert TrimSpace(parts[0]) == parts[0];
      assert parts == [parts[0]] + parts[1..];
    }
  }

  /** `split` undoes `strings.Join(list, ",")`, the empty list included. */
  lemma SplitUndoesJoin(list: seq<string>)
    requires forall i | 0 <= i < |list| :: Entry(list[i])
    ensures SplitList(Join(list, ',')) == list
  {
    if list == [] {
      assert SplitOn("", ',') == [""];
      assert TrimNonEmpty([""]) == [];
    } else {
      SplitJoin(list, ',');
      TrimKeeps(list);
    }
  }

  // ---- advertisedNets and policyInput ----

  function V4Nets(cidrs: seq<string>): seq<string> {
    if cidrs == [] then []
    else (if ParsePrefix(cidrs[0]).Some? then [cidrs[0]] else []) + V4Nets(cidrs[1..])
  }

  /** The node's own address as a host route, if it is advertised. */
  function NodeNet(info: NodeInfo, cfg: Config): seq<string> {
    if cfg.advertiseNodeIP && ParseAddr(info.internalIP).Some? then [info.internalIP + "/32"] else []
  }

  /** The value of `advertisedNets(info, cfg)`. */
  function NetsToAdvertise(info: NodeInfo, cfg: Config): seq<string> {
    (if cfg.advertisePodCIDR then V4Nets(info.podCIDRs) else []) + NodeNet(info, cfg)
  }

  method AdvertisedNets(info: NodeInfo, cfg: Config) returns (nets: seq<string>)
    ensures nets == NetsToAdvertise(info, cfg)
  {
    nets := [];
    if cfg.advertisePodCIDR {
      var cidrs := info.podCIDRs;
      for i := 0 to |cidrs|
        invariant nets + V4Nets(cidrs[i..]) == V4Nets(cidrs)
      {
        assert cidrs[i..][1..] == cidrs[i + 1..];
        if ParsePrefix(cidrs[i]).Some? {
          assert (nets + [cidrs[i]]) + V4Nets(cidrs[i + 1..]) == nets + ([cidrs[i]] + V4Nets(cidrs[i + 1..]));
          nets := nets + [cidrs[i]];
        } else {
          assert [] + V4Nets(cidrs[i + 1..]) == V4Nets(cidrs[i + 1..]);
        }
      }
      assert nets + [] == nets;
    }
    if cfg.advertiseNodeIP && ParseAddr(info.internalIP).Some? {
      nets := nets + [info.internalIP + "/32"];
    } else {
      assert nets + [] == nets;
    }
  }

  lemma {:induction false} V4NetsParse(cidrs: seq<string>)
    ensures AllParse(V4Nets(cidrs))
  {
    if cidrs != [] { V4NetsParse(cidrs[1..]); }
  }

  lemma HostLength()
    ensures ParseDec("32", 32) == Some(32)
  {
    assert Dec(3) == "3" && Dec(32) == "32";
    DecRoundTrip(32);
  }

  lemma HostRouteSplits(ip: string)
    requires ParseAddr(ip).Some?
    ensures SplitOn(ip + "/32", '/') == [ip, "32"]
  {
    forall c | c in ip ensures c != '/' {
      AddrChars(ip, c);
    }
    SplitHead(ip, "32", '/');
    SplitHead("32", "", '/');
    assert ip + "/32" == ip + ['/'] + "32";
  }

  lemma HostRouteParses(ip: string)
    requires ParseAddr(ip).Some?
    ensures ParsePrefix(ip + "/32") == Some(Prefix(ParseAddr(ip).value, 32))
  {
    HostRouteSplits(ip);
    HostLength();
  }

  lemma {:induction false} V4NetsMembers(cidrs: seq<string>, net: string)
    ensures net in V4Nets(cidrs) <==> net in cidrs && ParsePrefix(net).Some?
  {
    if cidrs != [] {
      V4NetsMembers(cidrs[1..], net);
      assert cidrs == [cidrs[0]] + cidrs[1..];
    }
  }

  /** Everything the agent advertises is a valid IPv4 prefix. */
  lemma AdvertisedParse(info: NodeInfo, cfg: Config)
    ensures AllParse(NetsToAdvertise(info, cfg))
  {
    V4NetsParse(info.podCIDRs);
    if ParseAddr(info.internalIP).Some? { HostRouteParses(info.internalIP); }
  }

  /** Exactly the IPv4 pod CIDRs and the IPv4 node address are advertised, as configured. */
  lemma AdvertisedMembers(info: NodeInfo, cfg: Config, net: string)
    ensures net in NetsToAdvertise(info, cfg)
       <==> || (cfg.advertisePodCIDR && net in info.podCIDRs && ParsePrefix(net).Some?)
            || (cfg.advertiseNodeIP && ParseAddr(info.internalIP).Some? && net == info.internalIP + "/32")
  {
    V4NetsMembers(info.podCIDRs, net);
  }

  /** `policyInput`, for a topology whose `isd_as` is `localIA`. */
  function PolicyInput(localIA: string, info: NodeInfo, cfg: Config): Input {
    Input(localIA, NetsToAdvertise(info, cfg), SplitList(cfg.acceptISDASes), SplitList(cfg.forbiddenCIDRs))
  }
}

/** The guarantees that span the operator and the agent. */
module Guardrail {
  import opened Wrappers
  import opened Text
  import opened Prefixes
  import opened Subtract
  import opened Cluster
  import opened CidrSubtraction
  import opened Policy
  import opened PolicyText
  import opened DenyList
  import opened AgentConfig

  predicate IsdAsChar(c: char) {
    IsDigit(c) || 'a' <= c <= 'f' || 'A' <= c <= 'F' || c == '_' || c == ':' || c == '-'
  }

  /** What the CRD pattern for `isdASes` items guarantees. */
  predicate IsdAs(s: string) {
    s != "" && forall i | 0 <= i < |s| :: IsdAsChar(s[i])
  }

  lemma CidrEntries(list: seq<string>)
    requires forall x | x in list :: IsV4(x)
    ensures forall i | 0 <= i < |list| :: Entry(list[i])
    ensures AllParse(list)
  {
    forall i | 0 <= i < |list| ensures Entry(list[i]) && IsV4(list[i]) {
      assert list[i] in list;
      ParsedChars(list[i]);
    }
  }

  lemma IsdAsEntry(s: string)
    requires IsdAs(s)
    ensures Entry(s) && Column(s)
  {
  }

  /** The agent's policy input for the environment rendered from `spec` and `list`. */
  function AgentInput(spec: Spec, list: seq<string>, localIA: string, info: NodeInfo): Input {
    PolicyInput(localIA, info, FromEnv(DaemonSetEnv(spec, list)))
  }

  /** The environment carries the remotes and the deny list to the agent intact. */
  lemma EnvCarriesLists(spec: Spec, list: seq<string>, localIA: string, info: NodeInfo)
    requires forall i | 0 <= i < |spec.isdASes| :: IsdAs(spec.isdASes[i])
    requires forall x | x in list :: IsV4(x)
    ensures AgentInput(spec, list, localIA, info).forbiddenCIDRs == list
    ensures AgentInput(spec, list, localIA, info).acceptISDASes == spec.isdASes
    ensures AllColumns(spec.isdASes)
  {
    CidrEntries(list);
    SplitUndoesJoin(list);
    forall i | 0 <= i < |spec.isdASes| ensures Entry(spec.isdASes[i]) && Column(spec.isdASes[i]) {
      IsdAsEntry(spec.isdASes[i]);
    }
    SplitUndoesJoin(spec.isdASes);
  }

  /** An unset pod CIDR switch means on, an unset node IP switch means off. */
  lemma EnvCarriesSwitches(spec: Spec, list: seq<string>)
    ensures FromEnv(DaemonSetEnv(spec, list)).advertisePodCIDR == (spec.podCIDR != Some(false))
    ensures FromEnv(DaemonSetEnv(spec, list)).advertiseNodeIP == (spec.nodeIP == Some(true))
  {
    assert GetenvBool("true", true) && GetenvBool("true", false);
    assert !GetenvBool("false", true) && !GetenvBool("false", false);
  }

  /** Some CIDR of the set contains the address. */
  ghost predicate Denied(a: nat, cidrs: set<string>) {
    exists c :: c in cidrs && ParsePrefix(c).Some? && ParsePrefix(c).value.Contains(a)
  }

  lemma BlocksMeaning(list: seq<string>, a: nat)
    requires AllParse(list)
    ensures InUnion(a, Blocks(list)) <==> exists i :: 0 <= i < |list| && ParsePrefix(list[i]).value.Contains(a)
  {
    forall i | 0 <= i < |list| ensures Blocks(list)[i].Contains(a) <==> ParsePrefix(list[i]).value.Contains(a) {
      MaskedContains(ParsePrefix(list[i]).value, a);
    }
    if i :| 0 <= i < |list| && ParsePrefix(list[i]).value.Contains(a) {
      assert Blocks(list)[i].Contains(a);
    }
  }

  lemma ListDenies(cidrs: set<string>, list: seq<string>, a: nat)
    requires Names(list) == cidrs && AllParse(list)
    ensures InUnion(a, Blocks(list)) <==> Denied(a, cidrs)
  {
    BlocksMeaning(list, a);
    if i :| 0 <= i < |list| && ParsePrefix(list[i]).value.Contains(a) {
      assert list[i] in cidrs;
    }
    if c :| c in cidrs && ParsePrefix(c).Some? && ParsePrefix(c).value.Contains(a) {
      var i :| 0 <= i < |list| && list[i] == c;
    }
  }

  /** The agent renders exactly when there is something to forbid, and the text then
      loads and means "everything but `cidrs`" unless `cidrs` is all of IPv4. */
  lemma SetReachesGateway(spec: Spec, cidrs: set<string>, list: seq<string>, localIA: string, info: NodeInfo,
                          from: string, to: string, a: nat)
    requires Enumerates(list, cidrs) && (forall x | x in cidrs :: IsV4(x))
    requires spec.isdASes != [] && (forall i | 0 <= i < |spec.isdASes| :: IsdAs(spec.isdASes[i]))
    requires Column(localIA)
    ensures Preparable(AgentInput(spec, list, localIA, info)) <==> cidrs != {}
    ensures cidrs != {} && (exists b: nat :: b < SPACE && !Denied(b, cidrs)) ==>
              var rules := ParsePolicy(RoutingText(AgentInput(spec, list, localIA, info)));
              && rules.Some?
              && (Accepts(rules.value, from, to, a)
                  <==> from in spec.isdASes && to == localIA && a < SPACE && !Denied(a, cidrs))
  {
    assert forall x | x in list :: x in Names(list);
    EnvCarriesLists(spec, list, localIA, info);
    CidrEntries(list);
    var inp := AgentInput(spec, list, localIA, info);
    assert list != [] ==> list[0] in Names(list);
    if b: nat :| cidrs != {} && b < SPACE && !Denied(b, cidrs) {
      ListDenies(cidrs, list, b);
      assert !CoversAll(Blocks(list));
      AdvertisedParse(info, FromEnv(DaemonSetEnv(spec, list)));
      PolicyMeaning(inp, from, to, a);
      ListDenies(cidrs, list, a);
    }
  }

  /** End to end: for every spec and every set of API responses that reconcile
      accepts, the policy text the agent renders from the environment loads in the
      gateway and accepts, from each configured remote, exactly the IPv4 addresses
      that no source CIDR contains, provided one address is left. With no source
      CIDR at all the agent refuses to render. */
  lemma DenyListReachesGateway(spec: Spec, api: Api, list: seq<string>, localIA: string, info: NodeInfo)
    requires Enumerates(list, Sources(spec, api))
    requires spec.isdASes != [] && (forall i | 0 <= i < |spec.isdASes| :: IsdAs(spec.isdASes[i]))
    requires Column(localIA)
    ensures Preparable(AgentInput(spec, list, localIA, info)) <==> Sources(spec, api) != {}
    ensures Sources(spec, api) != {} && (exists b: nat :: b < SPACE && !Denied(b, Sources(spec, api))) ==>
              var rules := ParsePolicy(RoutingText(AgentInput(spec, list, localIA, info)));
              && rules.Some?
              && forall from, to, a: nat ::
                   Accepts(rules.value, from, to, a)
                   <==> from in spec.isdASes && to == localIA && a < SPACE && !Denied(a, Sources(spec, api))
  {
    SourcesAreV4(spec, api);
    var cidrs := Sources(spec, api);
    SetReachesGateway(spec, cidrs, list, localIA, info, "", "", 0);
    if cidrs != {} && exists b: nat :: b < SPACE && !Denied(b, cidrs) {
      var rules := ParsePolicy(RoutingText(AgentInput(spec, list, localIA, info)));
      forall from, to, a: nat
        ensures Accepts(rules.value, from, to, a)
           <==> from in spec.isdASes && to == localIA && a < SPACE && !Denied(a, cidrs)
      {
        SetReachesGateway(spec, cidrs, list, localIA, info, from, to, a);
      }
    }
  }

  // ---- What is announced ----

  /** The spec has this net announced: pod CIDRs unless they are switched off, the node
      address only if it is switched on. */
  ghost predicate Announced(spec: Spec, info: NodeInfo, net: string) {
    && ParsePrefix(net).Some?
    && (|| (spec.podCIDR != Some(false) && net in info.podCIDRs)
        || (spec.nodeIP == Some(true) && ParseAddr(info.internalIP).Some? && net == info.internalIP + "/32"))
  }

  lemma AnnouncedNets(spec: Spec, list: seq<string>, localIA: string, info: NodeInfo, net: string)
    ensures net in AgentInput(spec, list, localIA, info).advertisedNets <==> Announced(spec, info, net)
  {
    EnvCarriesSwitches(spec, list);
    AdvertisedMembers(info, FromEnv(DaemonSetEnv(spec, list)), net);
    if ParseAddr(info.internalIP).Some? { HostRouteParses(info.internalIP); }
  }

  /** The rule announces one of these nets. */
  ghost predicate AnnouncesOne(nets: seq<Prefix>, spec: Spec, info: NodeInfo) {
    exists net :: Announced(spec, info, net) && nets == [ParsePrefix(net).value.Masked()]
  }

  lemma AnnouncedBlocks(spec: Spec, list: seq<string>, localIA: string, info: NodeInfo, blocks: seq<Prefix>)
    requires AllParse(AgentInput(spec, list, localIA, info).advertisedNets)
    ensures var nets := AgentInput(spec, list, localIA, info).advertisedNets;
            (exists i :: 0 <= i < |nets| && blocks == Blocks([nets[i]])) <==> AnnouncesOne(blocks, spec, info)
  {
    var nets := AgentInput(spec, list, localIA, info).advertisedNets;
    if i :| 0 <= i < |nets| && blocks == Blocks([nets[i]]) {
      AnnouncedNets(spec, list, localIA, info, nets[i]);
      OneBlock(nets[i]);
    }
    if net :| Announced(spec, info, net) && blocks == [ParsePrefix(net).value.Masked()] {
      AnnouncedNets(spec, list, localIA, info, net);
      var i :| 0 <= i < |nets| && nets[i] == net;
      OneBlock(net);
    }
  }

  lemma OneBlock(net: string)
    requires ParsePrefix(net).Some?
    ensures Blocks([net]) == [ParsePrefix(net).value.Masked()]
  {
  }

  /** End to end for the announcements: the rendered text announces to each configured
      remote, and to no other, exactly the nets the spec has announced for this node. */
  lemma AnnouncementsReachGateway(spec: Spec, cidrs: set<string>, list: seq<string>, localIA: string, info: NodeInfo, x: Rule)
    requires Enumerates(list, cidrs) && cidrs != {} && (forall c | c in cidrs :: IsV4(c))
    requires exists b: nat :: b < SPACE && !Denied(b, cidrs)
    requires spec.isdASes != [] && (forall i | 0 <= i < |spec.isdASes| :: IsdAs(spec.isdASes[i]))
    requires Column(localIA) && x.action == Advertise
    ensures Preparable(AgentInput(spec, list, localIA, info))
    ensures var rules := ParsePolicy(RoutingText(AgentInput(spec, list, localIA, info)));
            && rules.Some?
            && (x in rules.value <==> x.from == localIA && x.to in spec.isdASes && AnnouncesOne(x.nets, spec, info))
  {
    var inp := AgentInput(spec, list, localIA, info);
    SetReachesGateway(spec, cidrs, list, localIA, info, "", "", 0);
    EnvCarriesLists(spec, list, localIA, info);
    AdvertisedParse(info, FromEnv(DaemonSetEnv(spec, list)));
    NotCovered(cidrs, list);
    PolicyAdvertises(inp, x);
    AnnouncedBlocks(spec, list, localIA, info, x.nets);
  }

  lemma NotCovered(cidrs: set<string>, list: seq<string>)
    requires Enumerates(list, cidrs) && (forall c | c in cidrs :: IsV4(c)) && AllParse(list)
    requires exists b: nat :: b < SPACE && !Denied(b, cidrs)
    ensures !CoversAll(Blocks(list))
  {
    var b: nat :| b < SPACE && !Denied(b, cidrs);
    ListDenies(cidrs, list, b);
  }

  // ---- Node addresses and the underlay ----

  /** How IPv6 texts parse: which strings are valid IPv6 prefixes, and which of them
      contain which addresses. */
  datatype V6 = V6(valid: string -> bool, contains: (string, string) -> bool)

  predicate ValidPrefix(cidr: string, v6: V6) {
    IsV4(cidr) || v6.valid(cidr)
  }

  /** A valid underlay CIDR contains a node address. */
  predicate Inside(cidr: string, ip: string, v6: V6) {
    || (IsV4(cidr) && ParseAddr(ip).Some? && ParsePrefix(cidr).value.Contains(ParseAddr(ip).value))
    || (v6.valid(cidr) && v6.contains(cidr, ip))
  }

  /** No InternalIP of the node is inside an underlay CIDR. */
  ghost predicate NodeClear(n: Node, underlay: seq<string>, v6: V6) {
    forall i, c | 0 <= i < |n.addresses| && n.addresses[i].kind == InternalIP && c in underlay ::
      !Inside(c, n.addresses[i].text, v6)
  }

  ghost predicate NodesClear(nodes: seq<Node>, underlay: seq<string>, v6: V6) {
    forall k | 0 <= k < |nodes| :: NodeClear(nodes[k], underlay, v6)
  }

  /** `validateNodeIPAdvertisement` passes exactly when node IPs are not advertised,
      or no underlay CIDR is valid, or the selected nodes were listed and none has an
      InternalIP in the underlay. */
  method ValidateNodeIPAdvertisement(spec: Spec, selected: Read<seq<Node>>, v6: V6) returns (ok: bool)
    ensures ok <==> spec.nodeIP != Some(true) || (forall c | c in spec.underlayCIDRs :: !ValidPrefix(c, v6))
                    || (selected.Got? && NodesClear(selected.value, spec.underlayCIDRs, v6))
  {
    if spec.nodeIP.None? || !spec.nodeIP.value {
      return true;
    }
    var prefixes: seq<string> := [];
    var underlay := spec.underlayCIDRs;
    for i := 0 to |underlay|
      invariant forall c :: c in prefixes <==> c in underlay[..i] && ValidPrefix(c, v6)
    {
      assert underlay[..i + 1] == underlay[..i] + [underlay[i]];
      if ParsePrefix(underlay[i]).Some? || v6.valid(underlay[i]) {
        prefixes := prefixes + [underlay[i]];
      }
    }
    assert underlay[..|underlay|] == underlay;
    if |prefixes| == 0 {
      return true;
    }
    assert prefixes[0] in prefixes;
    if !selected.Got? {
      return false;
    }
    var nodes := selected.value;
    for k := 0 to |nodes|
      invariant forall m | 0 <= m < k :: NodeClear(nodes[m], underlay, v6)
    {
      var clear := CheckNode(nodes[k], prefixes, v6);
      assert clear <==> NodeClear(nodes[k], underlay, v6) by {
        assert forall ip, c | c in underlay && Inside(c, ip, v6) :: c in prefixes;
      }
      if !clear {
        return false;
      }
    }
    ok := true;
  }

  /** Parses the address and asks the prefix. */
  method Contains(cidr: string, text: string, v6: V6) returns (inside: bool)
    ensures inside <==> Inside(cidr, text, v6)
  {
    var ip := ParseAddr(text);
    var prefix := ParsePrefix(cidr);
    if prefix.Some? && ip.Some? && prefix.value.Contains(ip.value) {
      return true;
    }
    inside := v6.valid(cidr) && v6.contains(cidr, text);
  }

  method CheckNode(n: Node, prefixes: seq<string>, v6: V6) returns (clear: bool)
    ensures clear <==> NodeClear(n, prefixes, v6)
  {
    for i := 0 to |n.addresses|
      invariant forall l, c | 0 <= l < i && n.addresses[l].kind == InternalIP && c in prefixes :: !Inside(c, n.addresses[l].text, v6)
    {
      if n.addresses[i].kind == InternalIP {
        for j := 0 to |prefixes|
          invariant forall m | 0 <= m < j :: !Inside(prefixes[m], n.addresses[i].text, v6)
        {
          var inside := Contains(prefixes[j], n.addresses[i].text, v6);
          if inside {
            assert prefixes[j] in prefixes;
            return false;
          }
        }
      }
    }
    clear := true;
  }

  /** The agent's view of its node: the first InternalIP. */
  function AgentNodeInfo(n: Node, podCIDRs: seq<string>): NodeInfo {
    NodeInfo(podCIDRs, FirstInternalIP(n.addresses))
  }

  lemma {:induction false} FirstIsListed(addresses: seq<Address>)
    ensures FirstInternalIP(addresses) != "" ==>
              exists i :: 0 <= i < |addresses| && addresses[i] == Address(InternalIP, FirstInternalIP(addresses))
  {
    if addresses != [] && addresses[0].kind != InternalIP {
      FirstIsListed(addresses[1..]);
      if i :| 0 <= i < |addresses[1..]| && addresses[1..][i] == Address(InternalIP, FirstInternalIP(addresses[1..])) {
        assert addresses[i + 1] == Address(InternalIP, FirstInternalIP(addresses));
      }
    }
  }

  /** Whenever the check passes, no selected node makes its agent advertise a host
      route inside an underlay CIDR; with the field unset it advertises none. */
  lemma NodeIPNeverInUnderlay(spec: Spec, list: seq<string>, nodes: seq<Node>, k: nat, podCIDRs: seq<string>, v6: V6)
    requires k < |nodes|
    requires spec.nodeIP != Some(true) || (forall c | c in spec.underlayCIDRs :: !ValidPrefix(c, v6))
             || NodesClear(nodes, spec.underlayCIDRs, v6)
    ensures var nets := NodeNet(AgentNodeInfo(nodes[k], podCIDRs), FromEnv(DaemonSetEnv(spec, list)));
            && (spec.nodeIP != Some(true) ==> nets == [])
            && AllParse(nets)
            && forall i, c | 0 <= i < |nets| && c in spec.underlayCIDRs && IsV4(c) ::
                 !ParsePrefix(nets[i]).value.Overlaps(ParsePrefix(c).value)
  {
    var ip := AgentNodeInfo(nodes[k], podCIDRs).internalIP;
    var nets := NodeNet(AgentNodeInfo(nodes[k], podCIDRs), FromEnv(DaemonSetEnv(spec, list)));
    EnvCarriesSwitches(spec, list);
    if nets != [] {
      assert ParseAddr("").None?;
      FirstIsListed(nodes[k].addresses);
      HostRouteParses(ip);
      forall c | c in spec.underlayCIDRs && IsV4(c) ensures !ParsePrefix(nets[0]).value.Overlaps(ParsePrefix(c).value) {
        assert ValidPrefix(c, v6);
        assert NodeClear(nodes[k], spec.underlayCIDRs, v6);
        HostOutside(ip, c, v6);
      }
    }
  }

  lemma HostOutside(ip: string, c: string, v6: V6)
    requires ParseAddr(ip).Some? && IsV4(c) && !Inside(c, ip, v6) && ParsePrefix(ip + "/32").Some?
    ensures !ParsePrefix(ip + "/32").value.Overlaps(ParsePrefix(c).value)
  {
    HostRouteParses(ip);
    ContainsByMask(ParsePrefix(c).value, ParseAddr(ip).value);
  }
}
