/** The deny list the operator builds from the spec and the cluster. */
module DenyList {
  import opened Wrappers
  import opened Prefixes
  import opened Cluster
  import opened Policy
  import Order

  /** `isIPv4CIDR`. */
  predicate IsV4(cidr: string) {
    ParsePrefix(cidr).Some?
  }

  ghost function V4Set(cidrs: seq<string>): set<string> {
    set x | x in cidrs && IsV4(x)
  }

  /** `spec.podCIDRs`, or the single `spec.podCIDR` when that list is empty. */
  function PodCIDRs(n: Node): seq<string> {
    if |n.podCIDRs| == 0 && n.podCIDR != "" then [n.podCIDR] else n.podCIDRs
  }

  /** A node contributes the entries of its list of pod CIDRs, or, if that is empty, its
      single pod CIDR. */
  predicate HasPodCIDR(n: Node, x: string) {
    x in n.podCIDRs || (n.podCIDRs == [] && x == n.podCIDR)
  }

  ghost function NodeSet(nodes: seq<Node>): set<string> {
    set n, x | n in nodes && x in n.podCIDRs + [n.podCIDR] && HasPodCIDR(n, x) && IsV4(x) :: x
  }

  lemma NodeSetMembers(nodes: seq<Node>, x: string)
    ensures x in NodeSet(nodes) <==> ParsePrefix(x).Some? && NodeNames(nodes, x)
  {
    if IsV4(x) && NodeNames(nodes, x) {
      var i :| 0 <= i < |nodes| && (x in nodes[i].podCIDRs || (nodes[i].podCIDRs == [] && x == nodes[i].podCIDR));
      var n := nodes[i];
      assert n in nodes && x in n.podCIDRs + [n.podCIDR] && HasPodCIDR(n, x);
    }
  }

  /** The CIDRs the code walks are those the node contributes. */
  lemma PodCIDRsMeaning(n: Node, x: string)
    ensures x in PodCIDRs(n) && IsV4(x) <==> HasPodCIDR(n, x) && IsV4(x)
  {
    EmptyIsNotV4();
  }

  ghost function PoolSet(pools: seq<Pool>): set<string> {
    set p | p in pools && !p.disabled && IsV4(p.cidr) :: p.cidr
  }

  ghost function ListSet(lists: seq<seq<string>>): set<string> {
    set l, x | l in lists && x in l && IsV4(x) :: x
  }

  ghost function ClusterNetworkSet(entries: seq<Option<string>>): set<string> {
    set e | e in entries && e.Some? && IsV4(e.value) :: e.value
  }

  /** The IPv4 CIDRs of all sources: both spec lists, the OpenShift network
      configuration, node pod CIDRs, service CIDRs, Calico pools and Cilium nodes. */
  ghost function Sources(spec: Spec, api: Api): set<string> {
    ConfiguredSources(spec, api) + DerivedSources(api)
  }

  /** From the spec and the OpenShift network configuration. */
  ghost function ConfiguredSources(spec: Spec, api: Api): set<string> {
    V4Set(spec.forbiddenCIDRs) + V4Set(spec.underlayCIDRs)
    + (if api.network.Got? then ClusterNetworkSet(api.network.value.clusterNetwork) + V4Set(api.network.value.serviceNetwork) else {})
  }

  /** Derived from what runs in the cluster, whatever the CNI. */
  ghost function DerivedSources(api: Api): set<string> {
    (if api.nodes.Got? then NodeSet(api.nodes.value) else {})
    + (if api.services.Got? then ListSet(api.services.value) else {})
    + (if api.pools.Got? then PoolSet(api.pools.value) else {})
    + (if api.ciliumNodes.Got? then ListSet(api.ciliumNodes.value) else {})
  }

  /** The spec or the OpenShift network configuration names the CIDR. */
  ghost predicate Configured(spec: Spec, api: Api, x: string) {
    || x in spec.forbiddenCIDRs
    || x in spec.underlayCIDRs
    || (api.network.Got? && (Some(x) in api.network.value.clusterNetwork || x in api.network.value.serviceNetwork))
  }

  ghost predicate NodeNames(nodes: seq<Node>, x: string) {
    exists i :: 0 <= i < |nodes| && (x in nodes[i].podCIDRs || (nodes[i].podCIDRs == [] && x == nodes[i].podCIDR))
  }

  ghost predicate ListNames(lists: seq<seq<string>>, x: string) {
    exists i :: 0 <= i < |lists| && x in lists[i]
  }

  /** A node, a service CIDR, a Calico pool that is not disabled or a Cilium node names it. */
  ghost predicate Discovered(api: Api, x: string) {
    || (api.nodes.Got? && NodeNames(api.nodes.value, x))
    || (api.services.Got? && ListNames(api.services.value, x))
    || (api.pools.Got? && Pool(false, x) in api.pools.value)
    || (api.ciliumNodes.Got? && ListNames(api.ciliumNodes.value, x))
  }

  lemma ConfiguredMeaning(spec: Spec, api: Api, x: string)
    ensures x in ConfiguredSources(spec, api) <==> ParsePrefix(x).Some? && Configured(spec, api, x)
  {
    if api.network.Got? { ClusterNetworkMembers(api.network.value.clusterNetwork, x); }
  }

  lemma DerivedMeaning(api: Api, x: string)
    ensures x in DerivedSources(api) <==> ParsePrefix(x).Some? && Discovered(api, x)
  {
    if api.nodes.Got? { NodeSetMembers(api.nodes.value, x); }
    if api.services.Got? { ListSetMembers(api.services.value, x); }
    if api.pools.Got? { PoolSetMembers(api.pools.value, x); }
    if api.ciliumNodes.Got? { ListSetMembers(api.ciliumNodes.value, x); }
  }

  /** The sources on the fields of the spec and of the API responses. */
  lemma SourcesMeaning(spec: Spec, api: Api, x: string)
    ensures x in Sources(spec, api) <==> ParsePrefix(x).Some? && (Configured(spec, api, x) || Discovered(api, x))
  {
    ConfiguredMeaning(spec, api, x);
    DerivedMeaning(api, x);
  }

  lemma ClusterNetworkMembers(entries: seq<Option<string>>, x: string)
    ensures x in ClusterNetworkSet(entries) <==> ParsePrefix(x).Some? && Some(x) in entries
  {
    if Some(x) in entries && IsV4(x) {
      var e := Some(x);
      assert e in entries && e.Some? && IsV4(e.value);
    }
  }

  lemma ListSetMembers(lists: seq<seq<string>>, x: string)
    ensures x in ListSet(lists) <==> ParsePrefix(x).Some? && ListNames(lists, x)
  {
  }

  lemma PoolSetMembers(pools: seq<Pool>, x: string)
    ensures x in PoolSet(pools) <==> ParsePrefix(x).Some? && Pool(false, x) in pools
  {
    if Pool(false, x) in pools && IsV4(x) {
      var p := Pool(false, x);
      assert p in pools && !p.disabled && IsV4(p.cidr);
    }
  }

  /** Every spec entry is a valid prefix; `v6` recognises the valid IPv6 prefixes. */
  predicate SpecValid(cidrs: seq<string>, v6: string -> bool) {
    forall i | 0 <= i < |cidrs| :: IsV4(cidrs[i]) || v6(cidrs[i])
  }

  /** Reconcile gets past the deny list: valid spec entries, no failed read; only
      the node list must exist. */
  predicate Readable(spec: Spec, api: Api, v6: string -> bool) {
    && SpecValid(spec.forbiddenCIDRs, v6) && SpecValid(spec.underlayCIDRs, v6)
    && !api.network.Failed? && api.nodes.Got? && !api.services.Failed? && !api.pools.Failed? && !api.ciliumNodes.Failed?
  }

  /** `list` is the strictly sorted enumeration of `s`. */
  ghost predicate Enumerates(list: seq<string>, s: set<string>) {
    Order.StrictlySorted(list) && Names(list) == s
  }

  /** `specIPv4CIDRs`. */
  method SpecIPv4CIDRs(cidrs: seq<string>, v6: string -> bool) returns (r: Result<seq<string>, string>)
    ensures r.Ok? <==> SpecValid(cidrs, v6)
    ensures r.Ok? ==> Names(r.value) == V4Set(cidrs)
  {
    var out: seq<string> := [];
    for i := 0 to |cidrs|
      invariant SpecValid(cidrs[..i], v6) && Names(out) == V4Set(cidrs[..i])
    {
      if !IsV4(cidrs[i]) && !v6(cidrs[i]) {
        return Err(cidrs[i]);
      }
      V4SetSnoc(cidrs, i);
      if IsV4(cidrs[i]) {
        out := out + [cidrs[i]];
      }
    }
    assert cidrs[..|cidrs|] == cidrs;
    r := Ok(out);
  }

  lemma V4SetSnoc(cidrs: seq<string>, i: nat)
    requires i < |cidrs|
    ensures V4Set(cidrs[..i + 1]) == V4Set(cidrs[..i]) + (if IsV4(cidrs[i]) then {cidrs[i]} else {})
  {
    assert cidrs[..i + 1] == cidrs[..i] + [cidrs[i]];
  }

  lemma ListSetSnoc(lists: seq<seq<string>>, i: nat)
    requires i < |lists|
    ensures ListSet(lists[..i + 1]) == ListSet(lists[..i]) + V4Set(lists[i])
  {
    assert lists[..i + 1] == lists[..i] + [lists[i]];
  }

  lemma NodeSetSnoc(nodes: seq<Node>, i: nat)
    requires i < |nodes|
    ensures NodeSet(nodes[..i + 1]) == NodeSet(nodes[..i]) + V4Set(PodCIDRs(nodes[i]))
  {
    var more, less := nodes[..i + 1], nodes[..i];
    assert more == less + [nodes[i]];
    forall x ensures x in NodeSet(more) <==> x in NodeSet(less) + V4Set(PodCIDRs(nodes[i])) {
      PodCIDRsMeaning(nodes[i], x);
    }
  }

  lemma PoolSetSnoc(pools: seq<Pool>, i: nat)
    requires i < |pools|
    ensures PoolSet(pools[..i + 1])
         == PoolSet(pools[..i]) + (if !pools[i].disabled && IsV4(pools[i].cidr) then {pools[i].cidr} else {})
  {
    assert pools[..i + 1] == pools[..i] + [pools[i]];
  }

  lemma ClusterNetworkSnoc(entries: seq<Option<string>>, i: nat)
    requires i < |entries|
    ensures ClusterNetworkSet(entries[..i + 1])
         == ClusterNetworkSet(entries[..i]) + (if entries[i].Some? && IsV4(entries[i].value) then {entries[i].value} else {})
  {
    assert entries[..i + 1] == entries[..i] + [entries[i]];
  }

  method AppendV4(out: seq<string>, cidrs: seq<string>) returns (r: seq<string>)
    ensures Names(r) == Names(out) + V4Set(cidrs)
  {
    r := out;
    for i := 0 to |cidrs|
      invariant Names(r) == Names(out) + V4Set(cidrs[..i])
    {
      V4SetSnoc(cidrs, i);
      if IsV4(cidrs[i]) {
        NamesAppend(r, cidrs[i]);
        r := r + [cidrs[i]];
      }
    }
    assert cidrs[..|cidrs|] == cidrs;
  }

  method AppendLists(out: seq<string>, lists: seq<seq<string>>) returns (r: seq<string>)
    ensures Names(r) == Names(out) + ListSet(lists)
  {
    r := out;
    for i := 0 to |lists|
      invariant Names(r) == Names(out) + ListSet(lists[..i])
    {
      ListSetSnoc(lists, i);
      r := AppendV4(r, lists[i]);
    }
    assert lists[..|lists|] == lists;
  }

  /** `nodePodCIDRs`. */
  method AppendNodes(out: seq<string>, nodes: seq<Node>) returns (r: seq<string>)
    ensures Names(r) == Names(out) + NodeSet(nodes)
    ensures forall x :: x in r <==> x in out || (ParsePrefix(x).Some? && NodeNames(nodes, x))
  {
    r := out;
    for i := 0 to |nodes|
      invariant Names(r) == Names(out) + NodeSet(nodes[..i])
    {
      NodeSetSnoc(nodes, i);
      r := AppendV4(r, PodCIDRs(nodes[i]));
    }
    assert nodes[..|nodes|] == nodes;
    forall x ensures x in r <==> x in out || (ParsePrefix(x).Some? && NodeNames(nodes, x)) {
      NodeSetMembers(nodes, x);
      assert x in r <==> x in Names(r);
    }
  }

  /** `calicoPoolCIDRs`: disabled pools are skipped. */
  method AppendPools(out: seq<string>, pools: seq<Pool>) returns (r: seq<string>)
    ensures Names(r) == Names(out) + PoolSet(pools)
  {
    r := out;
    for i := 0 to |pools|
      invariant Names(r) == Names(out) + PoolSet(pools[..i])
    {
      PoolSetSnoc(pools, i);
      if !pools[i].disabled && IsV4(pools[i].cidr) {
        NamesAppend(r, pools[i].cidr);
        r := r + [pools[i].cidr];
      }
    }
    assert pools[..|pools|] == pools;
  }

  method AppendClusterNetwork(out: seq<string>, entries: seq<Option<string>>) returns (r: seq<string>)
    ensures Names(r) == Names(out) + ClusterNetworkSet(entries)
  {
    r := out;
    for i := 0 to |entries|
      invariant Names(r) == Names(out) + ClusterNetworkSet(entries[..i])
    {
      ClusterNetworkSnoc(entries, i);
      if entries[i].Some? && IsV4(entries[i].value) {
        NamesAppend(r, entries[i].value);
        r := r + [entries[i].value];
      }
    }
    assert entries[..|entries|] == entries;
  }

  /** `dedupe`: keeps the first occurrence of every non-empty string. */
  method Dedupe(s: seq<string>) returns (out: seq<string>)
    ensures Order.NoDuplicates(out)
    ensures Names(out) == Names(s) - {""}
  {
    out := [];
    for i := 0 to |s|
      invariant Order.NoDuplicates(out)
      invariant Names(out) == Names(s[..i]) - {""}
    {
      NamesSnoc(s, i);
      if s[i] != "" && s[i] !in out {
        NamesAppend(out, s[i]);
        out := out + [s[i]];
      }
    }
    assert s[..|s|] == s;
  }

  lemma EmptyIsNotV4()
    ensures !IsV4("")
  {
  }

  /** `clusterForbiddenCIDRs`: the deny list is the strictly sorted enumeration of
      the union of its sources; the second result reports OpenShift. */
  method ClusterForbiddenCIDRs(spec: Spec, api: Api, v6: string -> bool) returns (r: Result<(seq<string>, bool), string>)
    ensures r.Ok? <==> Readable(spec, api, v6)
    ensures r.Ok? ==> Enumerates(r.value.0, Sources(spec, api)) && r.value.1 == api.network.Got?
  {
    var all := GatherSources(spec, api, v6);
    if all.Err? {
      return Err(all.error);
    }
    SourcesAreV4(spec, api);
    var out := DedupeAndSort(all.value);
    r := Ok((out, api.network.Got?));
  }

  method DedupeAndSort(s: seq<string>) returns (out: seq<string>)
    requires forall x | x in Names(s) :: IsV4(x)
    ensures Enumerates(out, Names(s))
  {
    EmptyIsNotV4();
    var once := Dedupe(s);
    Order.SortStrict(once);
    Order.SortSameElements(once);
    out := Order.Sort(once);
    assert Names(out) == Names(once);
  }

  /** All sources, in the order the code reads them, with repetitions. */
  method GatherSources(spec: Spec, api: Api, v6: string -> bool) returns (r: Result<seq<string>, string>)
    ensures r.Ok? <==> Readable(spec, api, v6)
    ensures r.Ok? ==> Names(r.value) == Sources(spec, api)
  {
    var forbidden := SpecIPv4CIDRs(spec.forbiddenCIDRs, v6);
    if forbidden.Err? {
      return Err(forbidden.error);
    }
    var underlay := SpecIPv4CIDRs(spec.underlayCIDRs, v6);
    if underlay.Err? {
      return Err(underlay.error);
    }
    var out := forbidden.value + underlay.value;
    assert Names(out) == V4Set(spec.forbiddenCIDRs) + V4Set(spec.underlayCIDRs);
    match api.network {
      case Got(nc) =>
        out := AppendClusterNetwork(out, nc.clusterNetwork);
        out := AppendV4(out, nc.serviceNetwork);
      case Absent =>
      case Failed =>
        return Err("read openshift network config");
    }
    assert Names(out) == ConfiguredSources(spec, api);
    r := GatherDerived(out, api);
  }

  method GatherDerived(start: seq<string>, api: Api) returns (r: Result<seq<string>, string>)
    ensures r.Ok? <==> api.nodes.Got? && !api.services.Failed? && !api.pools.Failed? && !api.ciliumNodes.Failed?
    ensures r.Ok? ==> Names(r.value) == Names(start) + DerivedSources(api)
  {
    var out := start;
    if !api.nodes.Got? {
      return Err("list nodes for pod CIDR derivation");
    }
    out := AppendNodes(out, api.nodes.value);
    if api.services.Failed? {
      return Err("list service CIDRs");
    }
    if api.services.Got? {
      out := AppendLists(out, api.services.value);
    }
    if api.pools.Failed? {
      return Err("list calico IP pools");
    }
    if api.pools.Got? {
      out := AppendPools(out, api.pools.value);
    }
    if api.ciliumNodes.Failed? {
      return Err("list cilium nodes");
    }
    if api.ciliumNodes.Got? {
      out := AppendLists(out, api.ciliumNodes.value);
    }
    r := Ok(out);
  }

  lemma SourcesAreV4(spec: Spec, api: Api)
    ensures forall x | x in Sources(spec, api) :: IsV4(x)
  {
  }

  // ---- Rollout stability ----

  ghost predicate SameItems<T(!new)>(a: Read<seq<T>>, b: Read<seq<T>>) {
    (a.Got? <==> b.Got?) && (a.Got? ==> forall x :: x in a.value <==> x in b.value)
  }

  /** The two responses list the same items, in any order and multiplicity. */
  ghost predicate SameResponses(a: Api, b: Api) {
    && (a.network.Got? <==> b.network.Got?)
    && (a.network.Got? ==>
          && (forall x :: x in a.network.value.clusterNetwork <==> x in b.network.value.clusterNetwork)
          && (forall x :: x in a.network.value.serviceNetwork <==> x in b.network.value.serviceNetwork))
    && SameItems(a.nodes, b.nodes) && SameItems(a.services, b.services)
    && SameItems(a.pools, b.pools) && SameItems(a.ciliumNodes, b.ciliumNodes)
  }

  lemma SameListSet(a: seq<seq<string>>, b: seq<seq<string>>)
    requires forall x :: x in a <==> x in b
    ensures ListSet(a) == ListSet(b)
  {
  }

  lemma SameSources(spec: Spec, a: Api, b: Api)
    requires SameResponses(a, b)
    ensures Sources(spec, a) == Sources(spec, b)
  {
    if a.network.Got? {
      assert ClusterNetworkSet(a.network.value.clusterNetwork) == ClusterNetworkSet(b.network.value.clusterNetwork);
      assert V4Set(a.network.value.serviceNetwork) == V4Set(b.network.value.serviceNetwork);
    }
    if a.nodes.Got? { assert NodeSet(a.nodes.value) == NodeSet(b.nodes.value); }
    if a.services.Got? { SameListSet(a.services.value, b.services.value); }
    if a.pools.Got? { assert PoolSet(a.pools.value) == PoolSet(b.pools.value); }
    if a.ciliumNodes.Got? { SameListSet(a.ciliumNodes.value, b.ciliumNodes.value); }
  }

  /** Permuting or repeating items in the API responses cannot change the list. */
  lemma RolloutStable(spec: Spec, api1: Api, api2: Api, list1: seq<string>, list2: seq<string>)
    requires SameResponses(api1, api2)
    requires Enumerates(list1, Sources(spec, api1)) && Enumerates(list2, Sources(spec, api2))
    ensures list1 == list2
  {
    SameSources(spec, api1, api2);
    assert forall x :: x in list1 <==> x in Names(list1);
    assert forall x :: x in list2 <==> x in Names(list2);
    Order.StrictlySortedUnique(list1, list2);
  }
}
