/** From the node list to the registered SIG set. */
module Registration {
  import opened Wrappers
  import opened Cluster
  import opened Topology
  import RegistrarServer
  import Order

  datatype NodeSig = NodeSig(name: string, sig: SIG)

  /** Selected and with an InternalIP. */
  predicate Eligible(n: Node, selector: map<string, string>) {
    Selected(n.labels, selector) && FirstInternalIP(n.addresses) != ""
  }

  /** The two endpoints of a node: control port 30256, data port 30056. */
  function Endpoints(n: Node): SIG {
    var ip := FirstInternalIP(n.addresses);
    SIG(ip + ":30256", ip + ":30056")
  }

  function SigFor(n: Node, selector: map<string, string>): seq<NodeSig> {
    if Eligible(n, selector) then [NodeSig(n.name, Endpoints(n))] else []
  }

  function SkipFor(n: Node, selector: map<string, string>): seq<string> {
    if Selected(n.labels, selector) && FirstInternalIP(n.addresses) == "" then [n.name] else []
  }

  function EligibleSigs(nodes: seq<Node>, selector: map<string, string>): seq<NodeSig> {
    if nodes == [] then [] else SigFor(nodes[0], selector) + EligibleSigs(nodes[1..], selector)
  }

  function SkippedNames(nodes: seq<Node>, selector: map<string, string>): seq<string> {
    if nodes == [] then [] else SkipFor(nodes[0], selector) + SkippedNames(nodes[1..], selector)
  }

  function CountSelected(nodes: seq<Node>, selector: map<string, string>): nat {
    if nodes == [] then 0
    else (if Selected(nodes[0].labels, selector) then 1 else 0) + CountSelected(nodes[1..], selector)
  }

  // ---- What is to be registered, on the fields of a node ----

  ghost predicate LabelsMatch(n: Node, selector: map<string, string>) {
    forall k | k in selector :: k in n.labels && n.labels[k] == selector[k]
  }

  /** The node is selected and has an InternalIP; the first one gives the control endpoint
      on port 30256 and the data endpoint on port 30056. */
  ghost predicate Wanted(n: Node, selector: map<string, string>, sig: SIG) {
    && LabelsMatch(n, selector)
    && exists ip :: ip != "" && IsFirstInternalIP(n.addresses, ip)
                    && sig.ctrlAddr == ip + ":30256" && sig.dataAddr == ip + ":30056"
  }

  /** The node is selected, and no InternalIP that is not empty comes first. */
  ghost predicate Unaddressed(n: Node, selector: map<string, string>) {
    LabelsMatch(n, selector) && forall ip | IsFirstInternalIP(n.addresses, ip) :: ip == ""
  }

  lemma WantedMeaning(n: Node, selector: map<string, string>, sig: SIG)
    ensures Wanted(n, selector, sig) <==> Eligible(n, selector) && sig == Endpoints(n)
  {
    var ip := FirstInternalIP(n.addresses);
    if ip != "" { FirstInternalIPMeaning(n.addresses, ip); }
    if other :| other != "" && IsFirstInternalIP(n.addresses, other) { FirstInternalIPMeaning(n.addresses, other); }
    if Wanted(n, selector, sig) {
      var x :| x != "" && IsFirstInternalIP(n.addresses, x) && sig.ctrlAddr == x + ":30256" && sig.dataAddr == x + ":30056";
      FirstInternalIPMeaning(n.addresses, x);
    }
  }

  lemma UnaddressedMeaning(n: Node, selector: map<string, string>)
    ensures Unaddressed(n, selector) <==> Selected(n.labels, selector) && FirstInternalIP(n.addresses) == ""
  {
    var first := FirstInternalIP(n.addresses);
    if first != "" { FirstInternalIPMeaning(n.addresses, first); }
    if ip :| IsFirstInternalIP(n.addresses, ip) && ip != "" { FirstInternalIPMeaning(n.addresses, ip); }
  }

  ghost predicate IsWanted(x: NodeSig, nodes: seq<Node>, selector: map<string, string>) {
    exists i :: 0 <= i < |nodes| && nodes[i].name == x.name && Wanted(nodes[i], selector, x.sig)
  }

  ghost predicate IsUnaddressed(name: string, nodes: seq<Node>, selector: map<string, string>) {
    exists i :: 0 <= i < |nodes| && nodes[i].name == name && Unaddressed(nodes[i], selector)
  }

  lemma {:induction false} EligibleMembers(nodes: seq<Node>, selector: map<string, string>, s: NodeSig)
    ensures s in EligibleSigs(nodes, selector) <==> IsWanted(s, nodes, selector)
  {
    if nodes != [] {
      var rest := nodes[1..];
      EligibleMembers(rest, selector, s);
      WantedMeaning(nodes[0], selector, s.sig);
      if i :| 0 <= i < |rest| && rest[i].name == s.name && Wanted(rest[i], selector, s.sig) {
        assert nodes[i + 1] == rest[i];
      }
      if i :| 0 < i < |nodes| && nodes[i].name == s.name && Wanted(nodes[i], selector, s.sig) {
        assert nodes[i] == rest[i - 1];
      }
    }
  }

  lemma {:induction false} SkippedMembers(nodes: seq<Node>, selector: map<string, string>, name: string)
    ensures name in SkippedNames(nodes, selector) <==> IsUnaddressed(name, nodes, selector)
  {
    if nodes != [] {
      var rest := nodes[1..];
      SkippedMembers(rest, selector, name);
      UnaddressedMeaning(nodes[0], selector);
      if i :| 0 <= i < |rest| && rest[i].name == name && Unaddressed(rest[i], selector) {
        assert nodes[i + 1] == rest[i];
      }
      if i :| 0 < i < |nodes| && nodes[i].name == name && Unaddressed(nodes[i], selector) {
        assert nodes[i] == rest[i - 1];
      }
    }
  }

  lemma CollectedMembers(nodes: seq<Node>, selector: map<string, string>)
    ensures forall x :: x in EligibleSigs(nodes, selector) <==> IsWanted(x, nodes, selector)
    ensures forall name :: name in SkippedNames(nodes, selector) <==> IsUnaddressed(name, nodes, selector)
  {
    forall x ensures x in EligibleSigs(nodes, selector) <==> IsWanted(x, nodes, selector) {
      EligibleMembers(nodes, selector, x);
    }
    forall name ensures name in SkippedNames(nodes, selector) <==> IsUnaddressed(name, nodes, selector) {
      SkippedMembers(nodes, selector, name);
    }
  }

  // ---- Sorting by name ----

  predicate SortedByName(s: seq<NodeSig>) {
    forall i, j | 0 <= i < j < |s| :: Order.Le(s[i].name, s[j].name)
  }

  function InsertByName(x: NodeSig, s: seq<NodeSig>): seq<NodeSig> {
    if s == [] || Order.Le(x.name, s[0].name) then [x] + s else [s[0]] + InsertByName(x, s[1..])
  }

  function SortByName(s: seq<NodeSig>): seq<NodeSig> {
    if s == [] then [] else InsertByName(s[0], SortByName(s[1..]))
  }

  lemma {:induction false} InsertByNameSorted(x: NodeSig, s: seq<NodeSig>)
    requires SortedByName(s)
    ensures SortedByName(InsertByName(x, s)) && multiset(InsertByName(x, s)) == multiset(s) + multiset{x}
  {
    if s == [] {
    } else if Order.Le(x.name, s[0].name) {
      forall j | 0 <= j < |s| ensures Order.Le(x.name, s[j].name) {
        if j > 0 { Order.LeTransitive(x.name, s[0].name, s[j].name); }
      }
    } else {
      InsertByNameSorted(x, s[1..]);
      Order.LeTotal(x.name, s[0].name);
      assert s == [s[0]] + s[1..];
      var t := InsertByName(x, s[1..]);
      forall j | 0 <= j < |t| ensures Order.Le(s[0].name, t[j].name) {
        assert t[j] in multiset(t);
        assert t[j] == x || t[j] in s[1..];
      }
    }
  }

  lemma {:induction false} SortByNameSorted(s: seq<NodeSig>)
    ensures SortedByName(SortByName(s)) && multiset(SortByName(s)) == multiset(s)
  {
    if s != [] {
      SortByNameSorted(s[1..]);
      InsertByNameSorted(s[0], SortByName(s[1..]));
      assert s == [s[0]] + s[1..];
    }
  }

  // ---- The code ----

  /** The search for the address of a node: stops at the first InternalIP. */
  method FindInternalIP(addresses: seq<Address>) returns (ip: string)
    ensures ip == FirstInternalIP(addresses)
  {
    for i := 0 to |addresses|
      invariant FirstInternalIP(addresses[i..]) == FirstInternalIP(addresses)
    {
      assert addresses[i..][1..] == addresses[i + 1..];
      if addresses[i].kind == InternalIP {
        return addresses[i].text;
      }
    }
    ip := "";
  }

  /** The loop of `nodesToSIGs`. */
  method CollectNodes(nodes: seq<Node>, selector: map<string, string>) returns (sigs: seq<NodeSig>, skipped: seq<string>)
    ensures sigs == EligibleSigs(nodes, selector) && skipped == SkippedNames(nodes, selector)
  {
    sigs, skipped := [], [];
    assert nodes[..0] == [];
    for i := 0 to |nodes|
      invariant sigs == EligibleSigs(nodes[..i], selector) && skipped == SkippedNames(nodes[..i], selector)
    {
      var n := nodes[i];
      assert nodes[..i + 1] == nodes[..i] + [n];
      CollectSnoc(nodes[..i], n, selector);
      if !Selected(n.labels, selector) {
        continue;
      }
      var ip := FindInternalIP(n.addresses);
      if ip == "" {
        skipped := skipped + [n.name];
      } else {
        sigs := sigs + [NodeSig(n.name, SIG(ip + ":30256", ip + ":30056"))];
      }
    }
    assert nodes[..|nodes|] == nodes;
  }

  lemma {:induction false} CollectSnoc(nodes: seq<Node>, n: Node, selector: map<string, string>)
    ensures EligibleSigs(nodes + [n], selector) == EligibleSigs(nodes, selector) + SigFor(n, selector)
    ensures SkippedNames(nodes + [n], selector) == SkippedNames(nodes, selector) + SkipFor(n, selector)
  {
    if nodes == [] {
      assert nodes + [n] == [n] && [n][1..] == [];
    } else {
      assert (nodes + [n])[1..] == nodes[1..] + [n];
      CollectSnoc(nodes[1..], n, selector);
      var a, b, c := SigFor(nodes[0], selector), EligibleSigs(nodes[1..], selector), SigFor(n, selector);
      assert a + (b + c) == a + b + c;
      var x, y, z := SkipFor(nodes[0], selector), SkippedNames(nodes[1..], selector), SkipFor(n, selector);
      assert x + (y + z) == x + y + z;
    }
  }

  lemma {:induction false} SelectedSplit(nodes: seq<Node>, selector: map<string, string>)
    ensures |EligibleSigs(nodes, selector)| + |SkippedNames(nodes, selector)| == CountSelected(nodes, selector)
  {
    if nodes != [] { SelectedSplit(nodes[1..], selector); }
  }

  /** `nodesToSIGs`: every selected node is registered or reported as skipped. */
  method NodesToSIGs(nodes: seq<Node>, selector: map<string, string>) returns (sigs: seq<NodeSig>, skipped: seq<string>)
    ensures SortedByName(sigs) && multiset(sigs) == multiset(EligibleSigs(nodes, selector))
    ensures skipped == Order.Sort(SkippedNames(nodes, selector))
    ensures |sigs| + |skipped| == CountSelected(nodes, selector)
    ensures forall x :: x in sigs <==> IsWanted(x, nodes, selector)
    ensures forall name :: name in skipped <==> IsUnaddressed(name, nodes, selector)
  {
    sigs, skipped := CollectNodes(nodes, selector);
    CollectedMembers(nodes, selector);
    SortByNameSorted(sigs);
    Order.SamePermutation(SortByName(sigs), sigs);
    Order.SortSameElements(skipped);
    SelectedSplit(nodes, selector);
    sigs, skipped := SortByName(sigs), Order.Sort(skipped);
  }

  /** The PUT body `HTTP.Ensure` builds: later entries overwrite earlier ones. */
  function BodyOf(sigs: seq<NodeSig>): map<string, SIG> {
    if sigs == [] then map[]
    else BodyOf(sigs[..|sigs| - 1])[sigs[|sigs| - 1].name := sigs[|sigs| - 1].sig]
  }

  /** What came back from the registrar. */
  datatype Reply = Transport | Code(status: nat)

  /** `HTTP.Ensure`: sends the whole set and reports success only on 204. */
  method Ensure(sigs: seq<NodeSig>, reply: Reply) returns (body: map<string, SIG>, ok: bool)
    ensures body == BodyOf(sigs)
    ensures ok <==> reply == Code(204)
  {
    body := map[];
    for i := 0 to |sigs|
      invariant body == BodyOf(sigs[..i])
    {
      assert sigs[..i + 1][..i] == sigs[..i];
      body := body[sigs[i].name := sigs[i].sig];
    }
    assert sigs[..|sigs|] == sigs;
    ok := reply == Code(204);
  }

  datatype RegistrarStatus = RegistrarStatus(registeredNodes: nat, desiredSIGs: seq<string>, lastSync: Option<nat>, lastError: string)

  /** `name=control,data`, as the status shows it. */
  function DesiredText(s: NodeSig): string {
    s.name + "=" + s.sig.ctrlAddr + "," + s.sig.dataAddr
  }

  method DesiredTexts(sigs: seq<NodeSig>) returns (desired: seq<string>)
    ensures |desired| == |sigs| && forall i | 0 <= i < |sigs| :: desired[i] == DesiredText(sigs[i])
  {
    desired := [];
    for i := 0 to |sigs|
      invariant |desired| == i && forall j | 0 <= j < i :: desired[j] == DesiredText(sigs[j])
    {
      desired := desired + [DesiredText(sigs[i])];
    }
  }

  /** `sigs` is the sorted list of the eligible nodes. */
  ghost predicate SortedCluster(sigs: seq<NodeSig>, nodes: seq<Node>, selector: map<string, string>) {
    SortedByName(sigs) && multiset(sigs) == multiset(EligibleSigs(nodes, selector)) && |sigs| == |EligibleSigs(nodes, selector)|
  }

  /** `syncRegistrar`; `backend` and `ensure` are the errors of the backend ("" for none).
      The desired set is published whenever the nodes could be listed, registered nodes
      and sync time only advance on success. */
  method SyncRegistrar(st: RegistrarStatus, nodes: Read<seq<Node>>, selector: map<string, string>,
                       backend: string, ensure: string, now: nat)
    returns (r: RegistrarStatus, failed: bool, sigs: seq<NodeSig>)
    ensures failed <==> !nodes.Got? || backend != "" || ensure != ""
    ensures failed ==> r.registeredNodes == st.registeredNodes && r.lastSync == st.lastSync && r.lastError != ""
    ensures !failed ==> r.registeredNodes == |sigs| && r.lastSync == Some(now) && r.lastError == ""
    ensures !nodes.Got? ==> r.desiredSIGs == st.desiredSIGs && sigs == []
    ensures nodes.Got? ==> SortedCluster(sigs, nodes.value, selector) && |r.desiredSIGs| == |sigs|
    ensures nodes.Got? ==> forall i | 0 <= i < |sigs| :: r.desiredSIGs[i] == DesiredText(sigs[i])
    ensures nodes.Got? ==> forall x :: x in sigs <==> IsWanted(x, nodes.value, selector)
  {
    if !nodes.Got? {
      return st.(lastError := "list nodes"), true, [];
    }
    var skipped;
    sigs, skipped := NodesToSIGs(nodes.value, selector);
    Order.SamePermutation(sigs, EligibleSigs(nodes.value, selector));
    var desired := DesiredTexts(sigs);
    r := st.(desiredSIGs := desired);
    var error := if backend != "" then backend else ensure;
    failed := error != "";
    r := if failed then r.(lastError := error) else r.(registeredNodes := |sigs|, lastSync := Some(now), lastError := "");
  }

  // ---- What the registered set is ----

  ghost predicate DistinctNames(nodes: seq<Node>) {
    forall i, j | 0 <= i < j < |nodes| :: nodes[i].name != nodes[j].name
  }

  lemma {:induction false} BodyMembers(sigs: seq<NodeSig>, name: string)
    ensures name in BodyOf(sigs) <==> exists i :: 0 <= i < |sigs| && sigs[i].name == name
    ensures name in BodyOf(sigs) ==> exists i :: 0 <= i < |sigs| && sigs[i] == NodeSig(name, BodyOf(sigs)[name])
  {
    if sigs != [] {
      var n := |sigs| - 1;
      BodyMembers(sigs[..n], name);
      if name != sigs[n].name {
        if name in BodyOf(sigs) {
          var i :| 0 <= i < n && sigs[..n][i] == NodeSig(name, BodyOf(sigs)[name]);
          assert sigs[i] == sigs[..n][i];
        }
        if i :| 0 <= i < |sigs| && sigs[i].name == name { assert sigs[i] == sigs[..n][i]; }
      } else {
        assert sigs[n] == NodeSig(name, BodyOf(sigs)[name]);
      }
    }
  }

  /** `body` maps exactly the selected nodes with an InternalIP to their endpoints. */
  ghost predicate RegistersCluster(body: map<string, SIG>, nodes: seq<Node>, selector: map<string, string>) {
    forall name, sig :: name in body && body[name] == sig <==> IsWanted(NodeSig(name, sig), nodes, selector)
  }

  lemma WantedOnce(nodes: seq<Node>, selector: map<string, string>, name: string, x: SIG, y: SIG)
    requires DistinctNames(nodes) && IsWanted(NodeSig(name, x), nodes, selector) && IsWanted(NodeSig(name, y), nodes, selector)
    ensures x == y
  {
    var i :| 0 <= i < |nodes| && nodes[i].name == name && Wanted(nodes[i], selector, x);
    var j :| 0 <= j < |nodes| && nodes[j].name == name && Wanted(nodes[j], selector, y);
    WantedMeaning(nodes[i], selector, x);
    WantedMeaning(nodes[j], selector, y);
  }

  /** The body sent for the sorted list registers exactly the cluster. */
  lemma BodyRegistersCluster(nodes: seq<Node>, selector: map<string, string>, sigs: seq<NodeSig>)
    requires DistinctNames(nodes) && multiset(sigs) == multiset(EligibleSigs(nodes, selector))
    ensures RegistersCluster(BodyOf(sigs), nodes, selector)
  {
    var body, list := BodyOf(sigs), EligibleSigs(nodes, selector);
    Order.SamePermutation(sigs, list);
    forall name, sig ensures name in body && body[name] == sig <==> IsWanted(NodeSig(name, sig), nodes, selector) {
      BodyMembers(sigs, name);
      EligibleMembers(nodes, selector, NodeSig(name, sig));
      if name in body { EligibleMembers(nodes, selector, NodeSig(name, body[name])); }
      if IsWanted(NodeSig(name, sig), nodes, selector) {
        var k :| 0 <= k < |sigs| && sigs[k] == NodeSig(name, sig);
        WantedOnce(nodes, selector, name, sig, body[name]);
      }
    }
  }

  lemma SameWanted(a: seq<Node>, b: seq<Node>, selector: map<string, string>, x: NodeSig)
    requires forall n :: n in a ==> n in b
    ensures IsWanted(x, a, selector) ==> IsWanted(x, b, selector)
  {
    if i :| 0 <= i < |a| && a[i].name == x.name && Wanted(a[i], selector, x.sig) {
      assert a[i] in b;
      var j :| 0 <= j < |b| && b[j] == a[i];
    }
  }

  /** Any two node lists with the same nodes give the same registered set. */
  lemma OrderIndependent(a: seq<Node>, b: seq<Node>, selector: map<string, string>, x: map<string, SIG>, y: map<string, SIG>)
    requires forall n :: n in a <==> n in b
    requires RegistersCluster(x, a, selector) && RegistersCluster(y, b, selector)
    ensures x == y
  {
    forall name | name in x ensures name in y && y[name] == x[name] {
      assert IsWanted(NodeSig(name, x[name]), a, selector);
      SameWanted(a, b, selector, NodeSig(name, x[name]));
    }
    forall name | name in y ensures name in x {
      assert IsWanted(NodeSig(name, y[name]), b, selector);
      SameWanted(b, a, selector, NodeSig(name, y[name]));
    }
  }

  // ---- The operator and the registrar together ----

  /** A run of the registrar: `before`, then the step `answer`, then `more`. */
  datatype Exchange = Exchange(doc: Json, before: seq<RegistrarServer.Label>, answer: RegistrarServer.Label, id: nat,
                               more: seq<RegistrarServer.Label>, prefix: string)

  /** In this run the registrar answers 204 to a PUT of the body, and no later PUT has
      replaced the file yet. */
  ghost predicate Acknowledged(x: Exchange, body: map<string, SIG>) {
    var s := RegistrarServer.Run(RegistrarServer.Start(x.doc), x.before, x.prefix);
    && s.Some? && RegistrarServer.Arrive(x.id, RegistrarServer.Put(Some(body))) in x.before
    && RegistrarServer.Acknowledges(s.value, x.answer, x.id, x.prefix)
    && RegistrarServer.Run(RegistrarServer.Apply(s.value, x.answer, x.prefix), x.more, x.prefix).Some?
    && RegistrarServer.NoRename(x.more)
    && AllDecode(Unmanaged(SigsOf(x.doc), x.prefix))
  }

  /** The state of the registrar at the end of the run. */
  ghost function End(x: Exchange, body: map<string, SIG>): RegistrarServer.State
    requires Acknowledged(x, body)
  {
    var s := RegistrarServer.Run(RegistrarServer.Start(x.doc), x.before, x.prefix).value;
    RegistrarServer.Run(RegistrarServer.Apply(s, x.answer, x.prefix), x.more, x.prefix).value
  }

  /** The registrar's managed set is the cluster, and the control service has loaded it. */
  ghost predicate Mirrors(s: RegistrarServer.State, prefix: string, nodes: seq<Node>, selector: map<string, string>) {
    && s.view == s.file && ManagedSigs(s.file, prefix).Some?
    && RegistersCluster(ManagedSigs(s.file, prefix).value, nodes, selector)
  }

  /** Registration refines the cluster: when the PUT of the set computed from the node list
      is answered 204, in any interleaving of the registrar, then until the next rename its
      managed set maps exactly the selected nodes with an InternalIP to their endpoints. */
  lemma ClusterReachesRegistrar(x: Exchange, nodes: seq<Node>, selector: map<string, string>, sigs: seq<NodeSig>)
    requires DistinctNames(nodes) && multiset(sigs) == multiset(EligibleSigs(nodes, selector))
    requires Acknowledged(x, BodyOf(sigs))
    ensures Mirrors(End(x, BodyOf(sigs)), x.prefix, nodes, selector)
  {
    var s := RegistrarServer.Run(RegistrarServer.Start(x.doc), x.before, x.prefix).value;
    RegistrarServer.AcknowledgedMeansApplied(x.doc, x.before, s, x.answer, x.id, x.more, End(x, BodyOf(sigs)), BodyOf(sigs), x.prefix);
    BodyRegistersCluster(nodes, selector, sigs);
  }

  /** `syncRegistrar` over the http backend; `reply` is the registrar's answer to the PUT of
      `body`. The sync reports success exactly on a 204, and then every registrar that gave
      that answer to this body mirrors the cluster. */
  method SyncOverHttp(st: RegistrarStatus, nodes: Read<seq<Node>>, selector: map<string, string>, reply: Reply, now: nat)
    returns (r: RegistrarStatus, failed: bool, body: map<string, SIG>)
    ensures failed <==> !nodes.Got? || reply != Code(204)
    ensures !failed ==> r.lastSync == Some(now) && r.registeredNodes == |EligibleSigs(nodes.value, selector)|
    ensures failed ==> r.lastSync == st.lastSync && r.registeredNodes == st.registeredNodes
    ensures !failed && DistinctNames(nodes.value) ==>
              forall x | Acknowledged(x, body) :: Mirrors(End(x, body), x.prefix, nodes.value, selector)
  {
    var sigs;
    r, failed, sigs := SyncRegistrar(st, nodes, selector, "", if reply == Code(204) then "" else "registrar", now);
    var ok;
    body, ok := Ensure(sigs, reply);
    if !failed && DistinctNames(nodes.value) {
      forall x | Acknowledged(x, body) ensures Mirrors(End(x, body), x.prefix, nodes.value, selector) {
        ClusterReachesRegistrar(x, nodes.value, selector, sigs);
      }
    }
  }
}
