/** The gateway policies: `prepare` with its guardrails and the two renderers. */
module Policy {
  import opened Wrappers
  import opened Text
  import opened Prefixes
  import opened Subtract
  import opened CidrSubtraction
  import Runs

  datatype Input = Input(
    localIA: string,
    advertisedNets: seq<string>,
    acceptISDASes: seq<string>,
    forbiddenCIDRs: seq<string>)

  datatype PolicyError =
    | NoLocalIA
    | NoRemotes
    | BadCidr(text: string)
    | DefaultRoute(text: string)
    | Overlap(net: string, forbidden: Prefix)

  // ---- ValidateNoOverlap ----

  /** The net is not a default route and overlaps none of the forbidden prefixes. */
  ghost predicate NetAllowed(net: string, forbidden: seq<string>)
    requires AllParse(forbidden)
  {
    && ParsePrefix(net).Some?
    && ParsePrefix(net).value.bits != 0
    && forall j | 0 <= j < |forbidden| :: !ParsePrefix(net).value.Overlaps(ParsePrefix(forbidden[j]).value)
  }

  ghost predicate NetsAllowed(nets: seq<string>, forbidden: seq<string>)
    requires AllParse(forbidden)
  {
    forall i | 0 <= i < |nets| :: NetAllowed(nets[i], forbidden)
  }

  method ValidateNoOverlap(nets: seq<string>, forbidden: seq<string>) returns (r: Option<PolicyError>)
    ensures r.None? <==> AllParse(forbidden) && NetsAllowed(nets, forbidden)
    ensures !AllParse(forbidden) ==> r.Some? && r.value.BadCidr?
    ensures r.Some? && forbidden == [] && AllParse(nets) ==> r.value.DefaultRoute?
  {
    var fps: seq<Prefix> := [];
    for i := 0 to |forbidden|
      invariant |fps| == i
      invariant forall j | 0 <= j < i :: ParsePrefix(forbidden[j]) == Some(fps[j])
    {
      var fp := ParsePrefix(forbidden[i]);
      if fp.None? {
        return Some(BadCidr(forbidden[i]));
      }
      fps := fps + [fp.value];
    }
    for i := 0 to |nets|
      invariant forall k | 0 <= k < i :: NetAllowed(nets[k], forbidden)
    {
      var p := ParsePrefix(nets[i]);
      if p.None? {
        return Some(BadCidr(nets[i]));
      }
      if p.value.bits == 0 {
        assert !NetAllowed(nets[i], forbidden);
        return Some(DefaultRoute(nets[i]));
      }
      for j := 0 to |fps|
        invariant forall k | 0 <= k < j :: !p.value.Overlaps(fps[k])
      {
        if p.value.Overlaps(fps[j]) {
          assert !NetAllowed(nets[i], forbidden);
          return Some(Overlap(nets[i], fps[j]));
        }
      }
    }
    r := None;
  }

  // ---- prepare ----

  /** The accepted prefixes: all of IPv4 minus the forbidden CIDRs. */
  function Accepted(forbidden: seq<string>): seq<string>
    requires AllParse(forbidden)
  {
    Difference(ALL, forbidden)
  }

  lemma ZeroAddr()
    ensures FormatAddr(0) == "0.0.0.0"
  {
    assert Dec(0) == "0";
    assert AddrFields(0)[0] == "0" && AddrFields(0)[1] == "0" && AddrFields(0)[2] == "0" && AddrFields(0)[3] == "0";
    assert AddrFields(0) == ["0", "0", "0", "0"];
    assert Join(["0", "0"], '.') == "0.0";
    assert Join(["0", "0", "0"], '.') == "0.0.0";
  }

  lemma BaseText()
    ensures ParsePrefix("0.0.0.0/0") == Some(ALL)
  {
    assert FormatPrefix(ALL) == "0.0.0.0/0" by {
      ZeroAddr();
      assert Dec(0) == "0";
    }
    PrefixRoundTrip(ALL);
  }

  /** The overlap check never rejects the result of the subtraction, and the
      default-route check rejects it exactly when nothing is forbidden. */
  lemma GuardNeverRejects(forbidden: seq<string>)
    requires AllParse(forbidden)
    ensures NetsAllowed(Accepted(forbidden), forbidden) <==> forbidden != []
  {
    Everything();
    var acc, ex := Accepted(forbidden), Blocks(forbidden);
    if forbidden == [] {
      assert Walk(ALL, ex) == [ALL];
      DifferenceMembers(ALL, forbidden, FormatPrefix(ALL));
      PrefixRoundTrip(ALL);
      var i :| 0 <= i < |acc| && acc[i] == FormatPrefix(ALL);
      assert !NetAllowed(acc[i], forbidden);
    } else {
      forall i | 0 <= i < |acc| ensures NetAllowed(acc[i], forbidden) {
        DifferenceMembers(ALL, forbidden, acc[i]);
        var o :| o in Walk(ALL, ex) && acc[i] == FormatPrefix(o);
        OutputAllowed(forbidden, o);
      }
    }
  }

  lemma OutputAllowed(forbidden: seq<string>, o: Prefix)
    requires AllParse(forbidden) && forbidden != [] && ALL.Aligned() && o in Walk(ALL, Blocks(forbidden))
    ensures NetAllowed(FormatPrefix(o), forbidden)
  {
    var ex := Blocks(forbidden);
    var k :| 0 <= k < |Walk(ALL, ex)| && Walk(ALL, ex)[k] == o;
    OutputIsFree(ALL, ex, k);
    assert o.bits == 0 ==> Touched(o, ex) by {
      if o.bits == 0 {
        ZeroBitsIsAll(o);
        AllContains(ex[0]);
      }
    }
    UntouchedIffFree(o, ex);
    PrefixRoundTrip(o);
    forall j | 0 <= j < |forbidden| ensures !o.Overlaps(ParsePrefix(forbidden[j]).value) {
      OverlapsMasked(o, ParsePrefix(forbidden[j]).value);
      assert o.Masked() == o;
      assert !o.Overlaps(ex[j]);
    }
  }

  /** `prepare`: it succeeds exactly when there is a local IA, a remote, and a
      non-empty list of valid forbidden CIDRs. */
  method Prepare(inp: Input) returns (r: Result<seq<string>, PolicyError>)
    ensures r.Ok? <==> Preparable(inp)
    ensures r.Ok? ==> r.value == Accepted(inp.forbiddenCIDRs)
    ensures inp.localIA == "" ==> r == Err(NoLocalIA)
    ensures inp.localIA != "" && inp.acceptISDASes == [] ==> r == Err(NoRemotes)
    ensures inp.localIA != "" && inp.acceptISDASes != [] && !AllParse(inp.forbiddenCIDRs) ==> r.Err? && r.error.BadCidr?
    ensures inp.localIA != "" && inp.acceptISDASes != [] && inp.forbiddenCIDRs == [] ==> r.Err? && r.error.DefaultRoute?
  {
    if inp.localIA == "" {
      return Err(NoLocalIA);
    }
    if |inp.acceptISDASes| == 0 {
      return Err(NoRemotes);
    }
    BaseText();
    var accepted := SubtractCIDRs("0.0.0.0/0", inp.forbiddenCIDRs);
    if accepted.Err? {
      return Err(BadCidr(accepted.error));
    }
    GuardNeverRejects(inp.forbiddenCIDRs);
    DifferenceSorted(ALL, inp.forbiddenCIDRs);
    var bad := ValidateNoOverlap(accepted.value, inp.forbiddenCIDRs);
    if bad.Some? {
      return Err(bad.value);
    }
    r := Ok(accepted.value);
  }

  ghost predicate Preparable(inp: Input) {
    inp.localIA != "" && inp.acceptISDASes != [] && inp.forbiddenCIDRs != [] && AllParse(inp.forbiddenCIDRs)
  }

  // ---- Renderers ----

  function Line(action: string, from: string, to: string, nets: string): string {
    action + " " + (from + " " + (to + " " + nets))
  }

  function AdvertiseLines(local: string, remote: string, nets: seq<string>): (r: seq<string>)
    ensures |r| == |nets| && forall i | 0 <= i < |nets| :: r[i] == Line("advertise", local, remote, nets[i])
  {
    if nets == [] then [] else [Line("advertise", local, remote, nets[0])] + AdvertiseLines(local, remote, nets[1..])
  }

  function RemoteLines(local: string, remote: string, nets: seq<string>, accepted: seq<string>): seq<string> {
    AdvertiseLines(local, remote, nets) + [Line("accept", remote, local, Join(accepted, ','))]
  }

  function PolicyLines(local: string, remotes: seq<string>, nets: seq<string>, accepted: seq<string>): seq<string> {
    if remotes == [] then []
    else RemoteLines(local, remotes[0], nets, accepted) + PolicyLines(local, remotes[1..], nets, accepted)
  }

  function Unlines(lines: seq<string>): string {
    if lines == [] then "" else lines[0] + "\n" + Unlines(lines[1..])
  }

  /** The text of the routing policy for an input that passes `prepare`. */
  function RoutingText(inp: Input): string
    requires AllParse(inp.forbiddenCIDRs)
  {
    Unlines(PolicyLines(inp.localIA, inp.acceptISDASes, inp.advertisedNets, Accepted(inp.forbiddenCIDRs)))
  }

  lemma {:induction false} UnlinesConcat(a: seq<string>, b: seq<string>)
    ensures Unlines(a + b) == Unlines(a) + Unlines(b)
  {
    if a == [] {
      assert a + b == b;
    } else {
      assert (a + b)[1..] == a[1..] + b;
      UnlinesConcat(a[1..], b);
    }
  }

  lemma {:induction false} PolicyLinesConcat(local: string, r1: seq<string>, r2: seq<string>, nets: seq<string>, acc: seq<string>)
    ensures PolicyLines(local, r1 + r2, nets, acc) == PolicyLines(local, r1, nets, acc) + PolicyLines(local, r2, nets, acc)
  {
    if r1 == [] {
      assert r1 + r2 == r2;
    } else {
      assert (r1 + r2)[1..] == r1[1..] + r2;
      PolicyLinesConcat(local, r1[1..], r2, nets, acc);
    }
  }

  lemma UnlinesSnoc(lines: seq<string>, l: string)
    ensures Unlines(lines + [l]) == Unlines(lines) + (l + "\n")
  {
    UnlinesConcat(lines, [l]);
    assert Unlines([l]) == l + "\n";
  }

  /** The inner loop: the advertise lines of one remote. */
  method AdvertiseAll(b: string, ghost before: seq<string>, local: string, remote: string, nets: seq<string>) returns (out: string)
    requires b == Unlines(before)
    ensures out == Unlines(before + AdvertiseLines(local, remote, nets))
  {
    out := b;
    assert before + AdvertiseLines(local, remote, nets[..0]) == before;
    for j := 0 to |nets|
      invariant out == Unlines(before + AdvertiseLines(local, remote, nets[..j]))
    {
      ghost var adv := AdvertiseLines(local, remote, nets[..j]);
      AdvertiseSnoc(local, remote, nets, j);
      UnlinesSnoc(before + adv, Line("advertise", local, remote, nets[j]));
      Runs.Append3(before, adv, [Line("advertise", local, remote, nets[j])]);
      out := out + (Line("advertise", local, remote, nets[j]) + "\n");
    }
    assert nets[..|nets|] == nets;
  }

  method RenderRoutingPolicy(inp: Input) returns (r: Result<string, PolicyError>)
    ensures r.Ok? <==> Preparable(inp)
    ensures r.Ok? ==> r.value == RoutingText(inp)
  {
    var p := Prepare(inp);
    if p.Err? {
      return Err(p.error);
    }
    var b := RenderRemotes(inp.localIA, inp.acceptISDASes, inp.advertisedNets, p.value);
    r := Ok(b);
  }

  /** The outer loop: the lines of every remote. */
  method RenderRemotes(local: string, remotes: seq<string>, nets: seq<string>, accepted: seq<string>) returns (b: string)
    ensures b == Unlines(PolicyLines(local, remotes, nets, accepted))
  {
    b := "";
    for i := 0 to |remotes|
      invariant b == Unlines(PolicyLines(local, remotes[..i], nets, accepted))
    {
      ghost var before := PolicyLines(local, remotes[..i], nets, accepted);
      b := AdvertiseAll(b, before, local, remotes[i], nets);
      UnlinesSnoc(before + AdvertiseLines(local, remotes[i], nets), Line("accept", remotes[i], local, Join(accepted, ',')));
      RemoteStep(local, remotes, i, nets, accepted);
      b := b + (Line("accept", remotes[i], local, Join(accepted, ',')) + "\n");
    }
    assert remotes[..|remotes|] == remotes;
  }

  lemma AdvertiseSnoc(local: string, remote: string, nets: seq<string>, j: nat)
    requires j < |nets|
    ensures AdvertiseLines(local, remote, nets[..j + 1])
         == AdvertiseLines(local, remote, nets[..j]) + [Line("advertise", local, remote, nets[j])]
  {
  }

  lemma RemoteStep(local: string, remotes: seq<string>, i: nat, nets: seq<string>, accepted: seq<string>)
    requires i < |remotes|
    ensures PolicyLines(local, remotes[..i + 1], nets, accepted)
         == PolicyLines(local, remotes[..i], nets, accepted) + AdvertiseLines(local, remotes[i], nets)
          + [Line("accept", remotes[i], local, Join(accepted, ','))]
  {
    assert remotes[..i + 1] == remotes[..i] + [remotes[i]];
    PolicyLinesConcat(local, remotes[..i], [remotes[i]], nets, accepted);
    assert PolicyLines(local, [remotes[i]], nets, accepted) == RemoteLines(local, remotes[i], nets, accepted);
  }

  function Names(s: seq<string>): set<string> {
    set x | x in s
  }

  lemma NamesAppend(s: seq<string>, x: string)
    ensures Names(s + [x]) == Names(s) + {x}
  {
  }

  lemma NamesSnoc(s: seq<string>, i: nat)
    requires i < |s|
    ensures Names(s[..i + 1]) == Names(s[..i]) + {s[i]}
  {
    assert s[..i + 1] == s[..i] + [s[i]];
  }

  /** The JSON document of the traffic policy. */
  datatype TrafficDoc = TrafficDoc(ases: map<string, seq<string>>, configVersion: nat)

  /** The traffic policy renders for the same inputs as the routing policy, names
      exactly the configured remotes and lists no static nets. */
  method RenderTrafficPolicy(inp: Input) returns (r: Result<TrafficDoc, PolicyError>)
    ensures r.Ok? <==> Preparable(inp)
    ensures r.Ok? ==> r.value.ases.Keys == Names(inp.acceptISDASes)
    ensures r.Ok? ==> forall x | x in r.value.ases :: r.value.ases[x] == []
    ensures r.Ok? ==> r.value.configVersion == 1
  {
    var p := Prepare(inp);
    if p.Err? {
      return Err(p.error);
    }
    var ases := StaticAses(inp.acceptISDASes);
    r := Ok(TrafficDoc(ases, 1));
  }

  /** The loop over the remotes. */
  method StaticAses(remotes: seq<string>) returns (ases: map<string, seq<string>>)
    ensures ases.Keys == Names(remotes) && forall x | x in ases :: ases[x] == []
  {
    ases := map[];
    for i := 0 to |remotes|
      invariant ases.Keys == Names(remotes[..i])
      invariant forall x | x in ases :: ases[x] == []
    {
      NamesSnoc(remotes, i);
      ases := ases[remotes[i] := []];
    }
    assert remotes[..|remotes|] == remotes;
  }

  /** A file that is written with truncate-then-write: a failed write leaves unknown bytes. */
  datatype File<T> = Missing | Torn | Whole(content: T)

  class PolicyFiles {
    var traffic: File<TrafficDoc>
    var routing: File<string>

    /** `renderPolicies`; `trafficOk` and `routingOk` say whether the two writes succeed. */
    method RenderPolicies(inp: Input, trafficOk: bool, routingOk: bool) returns (ok: bool)
      modifies this
      ensures ok <==> Preparable(inp) && trafficOk && routingOk
      ensures !Preparable(inp) ==> traffic == old(traffic) && routing == old(routing)
      ensures Preparable(inp) && !trafficOk ==> traffic == Torn && routing == old(routing)
      ensures Preparable(inp) && trafficOk ==>
                && traffic.Whole? && traffic.content.ases.Keys == Names(inp.acceptISDASes)
                && (forall x | x in traffic.content.ases :: traffic.content.ases[x] == [])
                && routing == (if routingOk then Whole(RoutingText(inp)) else Torn)
    {
      var t := RenderTrafficPolicy(inp);
      if t.Err? {
        return false;
      }
      var r := RenderRoutingPolicy(inp);
      if r.Err? {
        return false;
      }
      if !trafficOk {
        traffic := Torn;
        return false;
      }
      traffic := Whole(t.value);
      if !routingOk {
        routing := Torn;
        return false;
      }
      routing := Whole(r.value);
      ok := true;
    }
  }
}
