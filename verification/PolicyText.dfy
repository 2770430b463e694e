/** Reading the routing policy back: the line grammar the source documents,
    `<action> <from> <to> <prefix>[,<prefix>...] [# comment]`, and default reject. */
module PolicyText {
  import opened Wrappers
  import opened Text
  import opened Prefixes
  import opened Subtract
  import opened CidrSubtraction
  import opened Policy
  import Runs

  datatype Action = Accept | Reject | Advertise

  datatype Rule = Rule(action: Action, from: string, to: string, nets: seq<Prefix>)

  function ParseAction(s: string): Option<Action> {
    if s == "accept" then Some(Accept)
    else if s == "reject" then Some(Reject)
    else if s == "advertise" then Some(Advertise)
    else None
  }

  function ParseNets(parts: seq<string>): (r: Option<seq<Prefix>>)
    ensures r.Some? ==> |r.value| == |parts|
  {
    if parts == [] then Some([]) else
    match (ParsePrefix(parts[0]), ParseNets(parts[1..]))
    case (Some(p), Some(rest)) => Some([p.Masked()] + rest)
    case _ => None
  }

  /** The rules of one line: none for a blank line, `None` for a malformed one. */
  function ParseLine(line: string): Option<seq<Rule>> {
    var cols := Fields(SplitOn(line, '#')[0]);
    if cols == [] then Some([])
    else if |cols| != 4 then None
    else
      match (ParseAction(cols[0]), ParseNets(SplitOn(cols[3], ',')))
      case (Some(action), Some(nets)) => Some([Rule(action, cols[1], cols[2], nets)])
      case _ => None
  }

  function ParseLines(lines: seq<string>): seq<Option<seq<Rule>>> {
    if lines == [] then [] else [ParseLine(lines[0])] + ParseLines(lines[1..])
  }

  /** All rules in order, provided no line is malformed. */
  function Gather(parsed: seq<Option<seq<Rule>>>): Option<seq<Rule>> {
    if parsed == [] then Some([])
    else if parsed[0].None? || Gather(parsed[1..]).None? then None
    else Some(parsed[0].value + Gather(parsed[1..]).value)
  }

  /** A policy is loaded only if every line of it parses. */
  function ParsePolicy(text: string): Option<seq<Rule>> {
    Gather(ParseLines(SplitOn(text, '\n')))
  }

  /** The first accept or reject rule that matches decides; with none the prefix is rejected. */
  ghost predicate Accepts(rules: seq<Rule>, from: string, to: string, a: nat) {
    rules != [] &&
    if rules[0].action != Advertise && rules[0].from == from && rules[0].to == to
       && AllAligned(rules[0].nets) && InUnion(a, rules[0].nets)
    then rules[0].action == Accept
    else Accepts(rules[1..], from, to, a)
  }

  // ---- The rules the renderer means ----

  function AdvertiseRules(local: string, remote: string, nets: seq<string>): seq<Rule>
    requires AllParse(nets)
  {
    if nets == [] then []
    else [Rule(Advertise, local, remote, Blocks([nets[0]]))] + AdvertiseRules(local, remote, nets[1..])
  }

  function RemoteRules(local: string, remote: string, nets: seq<string>, accepted: seq<string>): seq<Rule>
    requires AllParse(nets) && AllParse(accepted)
  {
    AdvertiseRules(local, remote, nets) + [Rule(Accept, remote, local, Blocks(accepted))]
  }

  function IntendedRules(local: string, remotes: seq<string>, nets: seq<string>, accepted: seq<string>): seq<Rule>
    requires AllParse(nets) && AllParse(accepted)
  {
    if remotes == [] then []
    else RemoteRules(local, remotes[0], nets, accepted) + IntendedRules(local, remotes[1..], nets, accepted)
  }

  /** A string that survives as one column: not empty, no white space, no comment sign. */
  predicate Column(s: string) {
    s != "" && NoSpace(s) && '#' !in s
  }

  predicate AllColumns(ss: seq<string>) {
    forall i | 0 <= i < |ss| :: Column(ss[i])
  }

  // ---- Reading back what was written ----

  lemma LineFields(action: string, from: string, to: string, nets: string)
    requires Column(action) && Column(from) && Column(to) && Column(nets)
    ensures Fields(Line(action, from, to, nets)) == [action, from, to, nets]
  {
    FieldsCons(action, from + " " + (to + " " + nets));
    FieldsCons(from, to + " " + nets);
    FieldsCons(to, nets);
    FieldsOne(nets);
  }

  lemma LineChars(action: string, from: string, to: string, nets: string, c: char)
    requires c != ' ' && c !in action && c !in from && c !in to && c !in nets
    ensures c !in Line(action, from, to, nets)
  {
    assert c !in to + " " + nets;
    assert c !in from + " " + (to + " " + nets);
  }

  lemma LineUncommented(action: string, from: string, to: string, nets: string)
    requires Column(action) && Column(from) && Column(to) && Column(nets)
    ensures SplitOn(Line(action, from, to, nets), '#')[0] == Line(action, from, to, nets)
    ensures '\n' !in Line(action, from, to, nets)
  {
    var line := Line(action, from, to, nets);
    LineChars(action, from, to, nets, '#');
    NoSpaceNoNewline(action);
    NoSpaceNoNewline(from);
    NoSpaceNoNewline(to);
    NoSpaceNoNewline(nets);
    LineChars(action, from, to, nets, '\n');
    SplitHead(line, "", '#');
  }

  lemma NoSpaceNoNewline(s: string)
    requires NoSpace(s)
    ensures '\n' !in s
  {
  }

  /** A line whose columns are clean parses to the rule with these columns. */
  lemma LineReadBack(action: string, act: Action, from: string, to: string, cidrs: seq<string>)
    requires Column(action) && ParseAction(action) == Some(act) && Column(from) && Column(to)
    requires AllParse(cidrs) && cidrs != []
    ensures ParseLine(Line(action, from, to, Join(cidrs, ','))) == Some([Rule(act, from, to, Blocks(cidrs))])
    ensures '\n' !in Line(action, from, to, Join(cidrs, ','))
  {
    JoinedColumn(cidrs);
    LineFields(action, from, to, Join(cidrs, ','));
    LineUncommented(action, from, to, Join(cidrs, ','));
    NetsReadBack(cidrs);
  }

  lemma {:induction false} NetsReadBack(cidrs: seq<string>)
    requires AllParse(cidrs)
    ensures ParseNets(cidrs) == Some(Blocks(cidrs))
  {
    if cidrs != [] { NetsReadBack(cidrs[1..]); }
  }

  lemma {:induction false} JoinedColumn(cidrs: seq<string>)
    requires AllParse(cidrs) && cidrs != []
    ensures Column(Join(cidrs, ',')) && SplitOn(Join(cidrs, ','), ',') == cidrs
  {
    forall i | 0 <= i < |cidrs|
      ensures cidrs[i] != [] && NoSpace(cidrs[i]) && ',' !in cidrs[i] && '#' !in cidrs[i]
    {
      ParsedChars(cidrs[i]);
    }
    SplitJoin(cidrs, ',');
    JoinChars(cidrs, ',', '#');
    var j := Join(cidrs, ',');
    forall k | 0 <= k < |j| ensures !IsSpace(j[k]) {
      JoinChars(cidrs, ',', j[k]);
    }
    assert cidrs[0] != [];
  }

  lemma {:induction false} GatherConcat(a: seq<Option<seq<Rule>>>, b: seq<Option<seq<Rule>>>)
    requires Gather(a).Some? && Gather(b).Some?
    ensures Gather(a + b) == Some(Gather(a).value + Gather(b).value)
  {
    if a == [] {
      assert a + b == b;
      assert [] + Gather(b).value == Gather(b).value;
    } else {
      assert (a + b)[1..] == a[1..] + b;
      GatherConcat(a[1..], b);
      var x, y, z := a[0].value, Gather(a[1..]).value, Gather(b).value;
      assert x + (y + z) == (x + y) + z;
    }
  }

  lemma {:induction false} ParseLinesConcat(a: seq<string>, b: seq<string>)
    ensures ParseLines(a + b) == ParseLines(a) + ParseLines(b)
  {
    if a == [] {
      assert a + b == b;
    } else {
      assert (a + b)[1..] == a[1..] + b;
      ParseLinesConcat(a[1..], b);
    }
  }

  /** Reading two blocks of lines one after the other. */
  lemma ReadConcat(a: seq<string>, b: seq<string>)
    requires Gather(ParseLines(a)).Some? && Gather(ParseLines(b)).Some?
    ensures Gather(ParseLines(a + b)) == Some(Gather(ParseLines(a)).value + Gather(ParseLines(b)).value)
  {
    ParseLinesConcat(a, b);
    GatherConcat(ParseLines(a), ParseLines(b));
  }

  lemma ReadOne(line: string)
    requires ParseLine(line).Some?
    ensures Gather(ParseLines([line])) == ParseLine(line)
  {
    var parsed := ParseLine(line);
    assert ParseLines([line]) == [parsed];
    assert Gather([parsed]) == Some(parsed.value + []);
    assert parsed.value + [] == parsed.value;
  }

  ghost predicate NoNewline(lines: seq<string>) {
    forall i | 0 <= i < |lines| :: '\n' !in lines[i]
  }

  lemma {:induction false} AdvertiseLinesReadBack(local: string, remote: string, nets: seq<string>)
    requires Column(local) && Column(remote) && AllParse(nets)
    ensures Gather(ParseLines(AdvertiseLines(local, remote, nets))) == Some(AdvertiseRules(local, remote, nets))
    ensures NoNewline(AdvertiseLines(local, remote, nets))
  {
    if nets != [] {
      LineReadBack("advertise", Advertise, local, remote, [nets[0]]);
      ReadOne(Line("advertise", local, remote, nets[0]));
      AdvertiseLinesReadBack(local, remote, nets[1..]);
      ReadConcat([Line("advertise", local, remote, nets[0])], AdvertiseLines(local, remote, nets[1..]));
    }
  }

  lemma AcceptReadBack(local: string, remote: string, accepted: seq<string>)
    requires Column(local) && Column(remote) && AllParse(accepted) && accepted != []
    ensures var acc := Line("accept", remote, local, Join(accepted, ','));
            Gather(ParseLines([acc])) == Some([Rule(Accept, remote, local, Blocks(accepted))]) && '\n' !in acc
  {
    assert Column("accept");
    LineReadBack("accept", Accept, remote, local, accepted);
    ReadOne(Line("accept", remote, local, Join(accepted, ',')));
  }

  lemma RemoteReadBack(local: string, remote: string, nets: seq<string>, accepted: seq<string>)
    requires Column(local) && Column(remote) && AllParse(nets) && AllParse(accepted) && accepted != []
    ensures Gather(ParseLines(RemoteLines(local, remote, nets, accepted))) == Some(RemoteRules(local, remote, nets, accepted))
    ensures NoNewline(RemoteLines(local, remote, nets, accepted))
  {
    AcceptReadBack(local, remote, accepted);
    AdvertiseLinesReadBack(local, remote, nets);
    ReadConcat(AdvertiseLines(local, remote, nets), [Line("accept", remote, local, Join(accepted, ','))]);
  }

  lemma {:induction false} LinesReadBack(local: string, remotes: seq<string>, nets: seq<string>, accepted: seq<string>)
    requires Column(local) && AllColumns(remotes)
    requires AllParse(nets) && AllParse(accepted) && accepted != []
    ensures Gather(ParseLines(PolicyLines(local, remotes, nets, accepted))) == Some(IntendedRules(local, remotes, nets, accepted))
    ensures NoNewline(PolicyLines(local, remotes, nets, accepted))
  {
    if remotes != [] {
      LinesReadBack(local, remotes[1..], nets, accepted);
      RemoteReadBack(local, remotes[0], nets, accepted);
      ReadConcat(RemoteLines(local, remotes[0], nets, accepted), PolicyLines(local, remotes[1..], nets, accepted));
    }
  }

  lemma {:induction false} SplitUnlines(lines: seq<string>)
    requires NoNewline(lines)
    ensures SplitOn(Unlines(lines), '\n') == lines + [""]
  {
    if lines != [] {
      SplitHead(lines[0], Unlines(lines[1..]), '\n');
      assert Unlines(lines) == lines[0] + ['\n'] + Unlines(lines[1..]);
      SplitUnlines(lines[1..]);
    }
  }

  // ---- When the text does not read back ----

  lemma {:induction false} SplitNoSep(s: string, sep: char)
    ensures forall f | f in SplitOn(s, sep) :: sep !in f
  {
    if s != [] { SplitNoSep(s[1..], sep); }
  }

  lemma FieldsSubset(s: string, c: char)
    requires c !in s
    ensures forall f | f in Fields(s) :: c !in f
    decreases |s|
  {
    if s != [] {
      if IsSpace(s[0]) { FieldsSubset(s[1..], c); } else { FieldsSubset(s[TokenLength(s)..], c); }
    }
  }

  ghost predicate RuleClean(r: Rule) {
    Column(r.from) && Column(r.to) && r.nets != []
  }

  lemma ParsedLineClean(line: string)
    ensures ParseLine(line).Some? ==> forall r | r in ParseLine(line).value :: RuleClean(r)
  {
    SplitNoSep(line, '#');
    var body := SplitOn(line, '#')[0];
    FieldsSubset(body, '#');
    var cols := Fields(body);
    if |cols| == 4 {
      assert cols[1] in cols && cols[2] in cols;
    }
  }

  /** Every rule that parses has real columns and at least one prefix. */
  lemma {:induction false} ParsedRulesClean(lines: seq<string>)
    requires Gather(ParseLines(lines)).Some?
    ensures forall r | r in Gather(ParseLines(lines)).value :: RuleClean(r)
  {
    if lines != [] {
      assert ParseLines(lines)[1..] == ParseLines(lines[1..]);
      ParsedRulesClean(lines[1..]);
      ParsedLineClean(lines[0]);
    }
  }

  lemma {:induction false} IntendedHasAccept(local: string, remotes: seq<string>, nets: seq<string>, accepted: seq<string>, i: nat)
    requires AllParse(nets) && AllParse(accepted) && i < |remotes|
    ensures Rule(Accept, remotes[i], local, Blocks(accepted)) in IntendedRules(local, remotes, nets, accepted)
  {
    if i > 0 {
      IntendedHasAccept(local, remotes[1..], nets, accepted, i - 1);
    }
  }

  /** The rendered text parses to the intended rules exactly when there is something
      to accept and the local and remote IAs are single columns. */
  lemma RoutingRoundTrip(local: string, remotes: seq<string>, nets: seq<string>, accepted: seq<string>)
    requires AllParse(nets) && AllParse(accepted) && remotes != []
    ensures ParsePolicy(Unlines(PolicyLines(local, remotes, nets, accepted)))
              == Some(IntendedRules(local, remotes, nets, accepted))
       <==> accepted != [] && Column(local) && AllColumns(remotes)
  {
    if accepted != [] && Column(local) && AllColumns(remotes) {
      WrittenReadsBack(local, remotes, nets, accepted);
    }
    var lines := SplitOn(Unlines(PolicyLines(local, remotes, nets, accepted)), '\n');
    if Gather(ParseLines(lines)) == Some(IntendedRules(local, remotes, nets, accepted)) {
      ParsedRulesClean(lines);
      forall i | 0 <= i < |remotes| ensures RuleClean(Rule(Accept, remotes[i], local, Blocks(accepted))) {
        IntendedHasAccept(local, remotes, nets, accepted, i);
      }
      assert RuleClean(Rule(Accept, remotes[0], local, Blocks(accepted)));
    }
  }

  lemma WrittenReadsBack(local: string, remotes: seq<string>, nets: seq<string>, accepted: seq<string>)
    requires AllParse(nets) && AllParse(accepted) && accepted != [] && Column(local) && AllColumns(remotes)
    ensures ParsePolicy(Unlines(PolicyLines(local, remotes, nets, accepted)))
              == Some(IntendedRules(local, remotes, nets, accepted))
  {
    var lines := PolicyLines(local, remotes, nets, accepted);
    LinesReadBack(local, remotes, nets, accepted);
    SplitUnlines(lines);
    assert ParseLine("") == Some([]);
    ReadOne("");
    ReadConcat(lines, [""]);
    var rules := IntendedRules(local, remotes, nets, accepted);
    assert rules + [] == rules;
  }

  /** An accept line without prefixes is malformed. */
  lemma BareAccept(remote: string, local: string)
    requires Column(remote) && Column(local)
    ensures ParseLine(Line("accept", remote, local, "")).None? && '\n' !in Line("accept", remote, local, "")
  {
    var line := Line("accept", remote, local, "");
    assert Column("accept");
    FieldsCons("accept", remote + " " + (local + " " + ""));
    FieldsCons(remote, local + " " + "");
    FieldsCons(local, "");
    assert Fields("") == [];
    LineChars("accept", remote, local, "", '#');
    NoSpaceNoNewline(remote);
    NoSpaceNoNewline(local);
    LineChars("accept", remote, local, "", '\n');
    SplitHead(line, "", '#');
  }

  lemma {:induction false} SplitUnlinesConcat(lines: seq<string>, rest: string)
    requires NoNewline(lines)
    ensures SplitOn(Unlines(lines) + rest, '\n') == lines + SplitOn(rest, '\n')
  {
    if lines == [] {
      assert Unlines(lines) + rest == rest;
    } else {
      var first, more := lines[0], Unlines(lines[1..]);
      Runs.Append3(first + ['\n'], more, rest);
      assert Unlines(lines) == first + ['\n'] + more;
      SplitHead(first, more + rest, '\n');
      SplitUnlinesConcat(lines[1..], rest);
      Runs.Append3([first], lines[1..], SplitOn(rest, '\n'));
      assert lines == [first] + lines[1..];
    }
  }

  /** One malformed line spoils the policy. */
  lemma {:induction false} MalformedLine(lines: seq<string>, i: nat)
    requires i < |lines| && ParseLine(lines[i]).None?
    ensures Gather(ParseLines(lines)).None?
  {
    assert ParseLines(lines)[1..] == ParseLines(lines[1..]);
    if i > 0 { MalformedLine(lines[1..], i - 1); }
  }

  /** With nothing to accept the text does not parse at all. */
  lemma NothingAcceptedUnreadable(local: string, remotes: seq<string>, nets: seq<string>)
    requires remotes != [] && AllParse(nets) && Column(local) && AllColumns(remotes)
    ensures ParsePolicy(Unlines(PolicyLines(local, remotes, nets, []))).None?
  {
    var head, tail := RemoteLines(local, remotes[0], nets, []), PolicyLines(local, remotes[1..], nets, []);
    AdvertiseLinesReadBack(local, remotes[0], nets);
    BareAccept(remotes[0], local);
    assert Join([], ',') == "";
    UnlinesConcat(head, tail);
    SplitUnlinesConcat(head, Unlines(tail));
    MalformedLine(head + SplitOn(Unlines(tail), '\n'), |nets|);
  }

  // ---- What the rules accept ----

  lemma PrependAdvertise(first: Rule, rest: seq<Rule>, from: string, to: string, a: nat)
    requires first.action == Advertise
    ensures Accepts([first] + rest, from, to, a) == Accepts(rest, from, to, a)
  {
    assert ([first] + rest)[1..] == rest;
  }

  lemma {:induction false} AdvertiseAcceptsNothing(local: string, remote: string, nets: seq<string>, rest: seq<Rule>,
                                                   from: string, to: string, a: nat)
    requires AllParse(nets)
    ensures Accepts(AdvertiseRules(local, remote, nets) + rest, from, to, a) == Accepts(rest, from, to, a)
  {
    if nets == [] {
      assert AdvertiseRules(local, remote, nets) + rest == rest;
    } else {
      var first, more := Rule(Advertise, local, remote, Blocks([nets[0]])), AdvertiseRules(local, remote, nets[1..]);
      AdvertiseAcceptsNothing(local, remote, nets[1..], rest, from, to, a);
      Runs.Append3([first], more, rest);
      PrependAdvertise(first, more + rest, from, to, a);
    }
  }

  lemma PrependAccept(first: Rule, rest: seq<Rule>, from: string, to: string, a: nat)
    requires first.action == Accept && AllAligned(first.nets)
    ensures Accepts([first] + rest, from, to, a)
       <==> (first.from == from && first.to == to && InUnion(a, first.nets)) || Accepts(rest, from, to, a)
  {
    assert ([first] + rest)[1..] == rest;
  }

  lemma {:induction false} IntendedAccepts(local: string, remotes: seq<string>, nets: seq<string>, accepted: seq<string>,
                                           from: string, to: string, a: nat)
    requires AllParse(nets) && AllParse(accepted)
    ensures Accepts(IntendedRules(local, remotes, nets, accepted), from, to, a)
       <==> from in remotes && to == local && InUnion(a, Blocks(accepted))
  {
    if remotes != [] {
      var tail := IntendedRules(local, remotes[1..], nets, accepted);
      var acc := Rule(Accept, remotes[0], local, Blocks(accepted));
      var adv := AdvertiseRules(local, remotes[0], nets);
      assert IntendedRules(local, remotes, nets, accepted) == adv + ([acc] + tail);
      AdvertiseAcceptsNothing(local, remotes[0], nets, [acc] + tail, from, to, a);
      PrependAccept(acc, tail, from, to, a);
      IntendedAccepts(local, remotes[1..], nets, accepted, from, to, a);
    }
  }

  lemma {:induction false} AdvertiseRulesAt(local: string, remote: string, nets: seq<string>)
    requires AllParse(nets)
    ensures |AdvertiseRules(local, remote, nets)| == |nets|
    ensures forall i | 0 <= i < |nets| :: AdvertiseRules(local, remote, nets)[i] == Rule(Advertise, local, remote, Blocks([nets[i]]))
  {
    if nets != [] { AdvertiseRulesAt(local, remote, nets[1..]); }
  }

  lemma AdvertiseMembers(local: string, remote: string, nets: seq<string>, r: Rule)
    requires AllParse(nets)
    ensures r in AdvertiseRules(local, remote, nets)
       <==> exists i :: 0 <= i < |nets| && r == Rule(Advertise, local, remote, Blocks([nets[i]]))
  {
    AdvertiseRulesAt(local, remote, nets);
  }

  /** Every advertised net is announced to every remote, and nothing else is. */
  lemma {:induction false} IntendedAdvertises(local: string, remotes: seq<string>, nets: seq<string>, accepted: seq<string>, r: Rule)
    requires AllParse(nets) && AllParse(accepted) && r.action == Advertise
    ensures r in IntendedRules(local, remotes, nets, accepted)
       <==> r.from == local && r.to in remotes && exists i :: 0 <= i < |nets| && r.nets == Blocks([nets[i]])
  {
    if remotes != [] {
      IntendedAdvertises(local, remotes[1..], nets, accepted, r);
      AdvertiseMembers(local, remotes[0], nets, r);
      assert remotes == [remotes[0]] + remotes[1..];
      var head, tail := RemoteRules(local, remotes[0], nets, accepted), IntendedRules(local, remotes[1..], nets, accepted);
      assert r in head + tail <==> r in head || r in tail;
      assert r in head <==> r in AdvertiseRules(local, remotes[0], nets);
    }
  }

  /** The prefixes cover all of IPv4. */
  ghost predicate CoversAll(ps: seq<Prefix>)
    requires AllAligned(ps)
  {
    forall a: nat | a < SPACE :: InUnion(a, ps)
  }

  /** The accepted list is empty exactly when the forbidden CIDRs cover all of IPv4. */
  lemma AcceptedEmpty(forbidden: seq<string>)
    requires AllParse(forbidden)
    ensures Accepted(forbidden) == [] <==> CoversAll(Blocks(forbidden))
  {
    DifferenceSorted(ALL, forbidden);
    Everything();
    var d, ex := Accepted(forbidden), Blocks(forbidden);
    if d == [] {
      forall a: nat | a < SPACE ensures InUnion(a, ex) {
        DifferenceExact(ALL, forbidden, a);
      }
    } else {
      var a := Blocks(d)[0].addr;
      assert Blocks(d)[0].Contains(a);
      DifferenceExact(ALL, forbidden, a);
      assert !CoversAll(ex);
    }
  }

  /** The policy an agent renders, read back by the gateway, accepts from a remote
      exactly the IPv4 addresses outside every forbidden CIDR. */
  lemma PolicyMeaning(inp: Input, from: string, to: string, a: nat)
    requires Preparable(inp) && AllParse(inp.advertisedNets)
    requires Column(inp.localIA) && AllColumns(inp.acceptISDASes)
    requires !CoversAll(Blocks(inp.forbiddenCIDRs))
    ensures ParsePolicy(RoutingText(inp)).Some?
    ensures Accepts(ParsePolicy(RoutingText(inp)).value, from, to, a)
       <==> from in inp.acceptISDASes && to == inp.localIA && a < SPACE && !InUnion(a, Blocks(inp.forbiddenCIDRs))
  {
    var acc := Accepted(inp.forbiddenCIDRs);
    Everything();
    DifferenceExact(ALL, inp.forbiddenCIDRs, a);
    AcceptedEmpty(inp.forbiddenCIDRs);
    RoutingRoundTrip(inp.localIA, inp.acceptISDASes, inp.advertisedNets, acc);
    IntendedAccepts(inp.localIA, inp.acceptISDASes, inp.advertisedNets, acc, from, to, a);
  }

  /** Read back, the policy announces exactly the advertised nets, each to every remote. */
  lemma PolicyAdvertises(inp: Input, x: Rule)
    requires Preparable(inp) && AllParse(inp.advertisedNets) && x.action == Advertise
    requires Column(inp.localIA) && AllColumns(inp.acceptISDASes)
    requires !CoversAll(Blocks(inp.forbiddenCIDRs))
    ensures ParsePolicy(RoutingText(inp)).Some?
    ensures x in ParsePolicy(RoutingText(inp)).value
       <==> x.from == inp.localIA && x.to in inp.acceptISDASes && exists i :: 0 <= i < |inp.advertisedNets| && x.nets == Blocks([inp.advertisedNets[i]])
  {
    var acc := Accepted(inp.forbiddenCIDRs);
    DifferenceSorted(ALL, inp.forbiddenCIDRs);
    AcceptedEmpty(inp.forbiddenCIDRs);
    RoutingRoundTrip(inp.localIA, inp.acceptISDASes, inp.advertisedNets, acc);
    IntendedAdvertises(inp.localIA, inp.acceptISDASes, inp.advertisedNets, acc, x);
  }

  /** A policy that passes the guardrails loads exactly when the forbidden CIDRs leave some
      address; forbidding all of IPv4 renders a text that no gateway loads. */
  lemma PolicyLoadsIff(inp: Input)
    requires Preparable(inp) && AllParse(inp.advertisedNets)
    requires Column(inp.localIA) && AllColumns(inp.acceptISDASes)
    ensures ParsePolicy(RoutingText(inp)).Some? <==> !CoversAll(Blocks(inp.forbiddenCIDRs))
  {
    AcceptedEmpty(inp.forbiddenCIDRs);
    if CoversAll(Blocks(inp.forbiddenCIDRs)) {
      NothingAcceptedUnreadable(inp.localIA, inp.acceptISDASes, inp.advertisedNets);
    } else {
      PolicyMeaning(inp, "", "", 0);
    }
  }

  /** The shortest such list: forbidding 0.0.0.0/0 passes the guardrails and cannot be loaded. */
  lemma ForbidEverything(local: string, remotes: seq<string>)
    requires Column(local) && remotes != [] && AllColumns(remotes)
    ensures var inp := Input(local, [], remotes, ["0.0.0.0/0"]); Preparable(inp) && ParsePolicy(RoutingText(inp)).None?
  {
    BaseText();
    Everything();
    var inp := Input(local, [], remotes, ["0.0.0.0/0"]);
    forall a: nat | a < SPACE ensures InUnion(a, Blocks(inp.forbiddenCIDRs)) {
      assert Blocks(inp.forbiddenCIDRs)[0].Contains(a);
    }
    PolicyLoadsIff(inp);
  }
}
