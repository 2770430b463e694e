/** What every fetch, and every sequence of fetches and crashes, keeps. */
module BootstrapSafety {
  import opened Wrappers
  import opened Runs
  import opened Bootstrap

  // ---- Single writes ----

  /** Every TRC of the download is cached with the downloaded bytes. */
  ghost predicate InPlace(d: Download, x: Disk) {
    forall name | name in d.trcs :: name in x.certs && x.certs[name] == d.trcs[name]
  }

  /** `d` was downloaded from one of the bases and passed the pin check. */
  ghost predicate Served(d: Download, bases: seq<Attempt>, pins: map<string, Pin>) {
    exists j :: 0 <= j < |bases| && Verified(bases[j], pins) && Downloaded(bases[j]) == Some(d)
  }

  ghost predicate TrcWrite(x: Disk, y: Disk, d: Download) {
    exists name :: name in d.trcs && y == x.(certs := x.certs[name := d.trcs[name]])
  }

  /** One atomic write: a TRC of `d`, or its topology once all its TRCs are in place. */
  ghost predicate OneWrite(x: Disk, y: Disk, d: Download) {
    TrcWrite(x, y, d) || (y == x.(topology := Some(d.topology)) && InPlace(d, x))
  }

  ghost predicate Step(x: Disk, y: Disk, bases: seq<Attempt>, pins: map<string, Pin>) {
    exists d :: Served(d, bases, pins) && OneWrite(x, y, d)
  }

  ghost function StepOf(bases: seq<Attempt>, pins: map<string, Pin>): (Disk, Disk) -> bool {
    (x, y) => Step(x, y, bases, pins)
  }

  lemma ServedWiden(few: seq<Attempt>, many: seq<Attempt>, pins: map<string, Pin>, x: Disk, s: seq<Disk>)
    requires forall j | 0 <= j < |few| :: few[j] in many
    requires Chain(x, s, StepOf(few, pins))
    ensures Chain(x, s, StepOf(many, pins))
  {
    forall a, b | Step(a, b, few, pins) ensures Step(a, b, many, pins) {
      var d :| Served(d, few, pins) && OneWrite(a, b, d);
      var j :| 0 <= j < |few| && Verified(few[j], pins) && Downloaded(few[j]) == Some(d);
      assert few[j] in many;
      assert Served(d, many, pins);
    }
    ChainWiden(x, s, StepOf(few, pins), StepOf(many, pins));
  }

  // ---- The states of one attempt ----

  /** The TRCs among `names` that are written before the first failing write. */
  function PartialTrcs(names: seq<string>, d: Download, ok: string -> bool): map<string, Bytes>
    requires forall i | 0 <= i < |names| :: names[i] in d.trcs
  {
    if names == [] || !ok(names[0]) then map[]
    else map[names[0] := d.trcs[names[0]]] + PartialTrcs(names[1..], d, ok)
  }

  lemma UnionStep(m: map<string, Bytes>, k: string, v: Bytes, p: map<string, Bytes>)
    ensures m[k := v] + p == m + (map[k := v] + p)
  {
  }

  lemma UnionEmpty(m: map<string, Bytes>)
    ensures m + map[] == m
  {
  }

  lemma UnionAssociative(m: map<string, Bytes>, p: map<string, Bytes>, q: map<string, Bytes>)
    ensures (m + p) + q == m + (p + q)
  {
  }

  lemma {:induction false} TrcStatesEnd(x: Disk, names: seq<string>, d: Download, ok: string -> bool)
    requires forall i | 0 <= i < |names| :: names[i] in d.trcs
    ensures Last(x, TrcStates(x, names, d, ok)) == Disk(x.topology, x.certs + PartialTrcs(names, d, ok))
    decreases |names|
  {
    if names == [] || !ok(names[0]) {
      UnionEmpty(x.certs);
    } else {
      var y := x.(certs := x.certs[names[0] := d.trcs[names[0]]]);
      TrcStatesEnd(y, names[1..], d, ok);
      UnionStep(x.certs, names[0], d.trcs[names[0]], PartialTrcs(names[1..], d, ok));
    }
  }

  lemma {:induction false} TrcStatesChain(x: Disk, names: seq<string>, d: Download, ok: string -> bool, step: (Disk, Disk) -> bool)
    requires forall i | 0 <= i < |names| :: names[i] in d.trcs
    requires forall a, b | TrcWrite(a, b, d) :: step(a, b)
    ensures Chain(x, TrcStates(x, names, d, ok), step)
    decreases |names|
  {
    if names != [] && ok(names[0]) {
      var y := x.(certs := x.certs[names[0] := d.trcs[names[0]]]);
      assert TrcWrite(x, y, d);
      TrcStatesChain(y, names[1..], d, ok, step);
      var rest := TrcStates(y, names[1..], d, ok);
      assert ([y] + rest)[1..] == rest;
    }
  }

  lemma {:induction false} PartialMeaning(names: seq<string>, d: Download, ok: string -> bool)
    requires forall i | 0 <= i < |names| :: names[i] in d.trcs
    ensures forall n | n in PartialTrcs(names, d, ok) :: n in names && PartialTrcs(names, d, ok)[n] == d.trcs[n]
    ensures (forall i | 0 <= i < |names| :: ok(names[i])) ==> forall n | n in names :: n in PartialTrcs(names, d, ok)
  {
    if names != [] {
      PartialMeaning(names[1..], d, ok);
      assert names == [names[0]] + names[1..];
    }
  }

  /** What one base leaves in the certificate directory if it fails: nothing before the
      write phase, else the TRCs written so far. */
  function Residue(a: Attempt, pins: map<string, Pin>): map<string, Bytes>
    requires Sensible(a)
  {
    if !Verified(a, pins) then map[] else PartialTrcs(a.order, Downloaded(a).value, a.trcWriteOk)
  }

  /** After one attempt: on success the topology and every TRC are those of the base;
      on failure the topology is untouched, and before the write phase everything is. */
  lemma AttemptOutcome(x: Disk, a: Attempt, pins: map<string, Pin>)
    requires Sensible(a)
    ensures Last(x, AttemptStates(x, a, pins))
         == if Succeeds(a, pins)
            then Disk(Some(Downloaded(a).value.topology), x.certs + Downloaded(a).value.trcs)
            else Disk(x.topology, x.certs + Residue(a, pins))
    ensures !Verified(a, pins) ==> AttemptStates(x, a, pins) == []
  {
    if !Verified(a, pins) {
      UnionEmpty(x.certs);
    } else {
      var d := Downloaded(a).value;
      assert forall i | 0 <= i < |a.order| :: a.order[i] in a.order;
      TrcStatesEnd(x, a.order, d, a.trcWriteOk);
      if Succeeds(a, pins) { AllWritten(a, pins); }
    }
  }

  lemma AllWritten(a: Attempt, pins: map<string, Pin>)
    requires Sensible(a) && Succeeds(a, pins)
    ensures PartialTrcs(a.order, Downloaded(a).value, a.trcWriteOk) == Downloaded(a).value.trcs
  {
    var d := Downloaded(a).value;
    assert forall i | 0 <= i < |a.order| :: a.order[i] in a.order;
    PartialMeaning(a.order, d, a.trcWriteOk);
  }

  lemma AttemptTrcChain(x: Disk, a: Attempt, pins: map<string, Pin>)
    requires Sensible(a) && Verified(a, pins) && forall i | 0 <= i < |a.order| :: a.order[i] in Downloaded(a).value.trcs
    ensures Chain(x, TrcStates(x, a.order, Downloaded(a).value, a.trcWriteOk), StepOf([a], pins))
  {
    var d, step := Downloaded(a).value, StepOf([a], pins);
    assert Served(d, [a], pins) by { assert [a][0] == a; }
    forall p, q | TrcWrite(p, q, d) ensures step(p, q) { assert OneWrite(p, q, d); }
    TrcStatesChain(x, a.order, d, a.trcWriteOk, step);
  }

  lemma AttemptLastStep(y: Disk, a: Attempt, pins: map<string, Pin>)
    requires Verified(a, pins) && InPlace(Downloaded(a).value, y)
    ensures StepOf([a], pins)(y, y.(topology := Some(Downloaded(a).value.topology)))
  {
    var d := Downloaded(a).value;
    assert Served(d, [a], pins) by { assert [a][0] == a; }
    assert OneWrite(y, y.(topology := Some(d.topology)), d);
  }

  /** Every write of an attempt is of its verified download, the topology last. */
  lemma AttemptChain(x: Disk, a: Attempt, pins: map<string, Pin>)
    requires Sensible(a)
    ensures Chain(x, AttemptStates(x, a, pins), StepOf([a], pins))
  {
    if Verified(a, pins) {
      OrderListed(a);
      AttemptTrcChain(x, a, pins);
      if Succeeds(a, pins) {
        var d := Downloaded(a).value;
        var t := TrcStates(x, a.order, d, a.trcWriteOk);
        var y := Last(x, t);
        TrcStatesEnd(x, a.order, d, a.trcWriteOk);
        AllWritten(a, pins);
        AttemptLastStep(y, a, pins);
        ChainOne(y, y.(topology := Some(d.topology)), StepOf([a], pins));
        ChainConcat(x, t, [y.(topology := Some(d.topology))], StepOf([a], pins));
      }
    }
  }

  // ---- A whole fetch ----

  /** What the failed bases leave behind, later ones overwriting earlier ones. */
  function Leftovers(bases: seq<Attempt>, pins: map<string, Pin>): map<string, Bytes>
    requires AllSensible(bases)
  {
    if bases == [] then map[] else Residue(bases[0], pins) + Leftovers(bases[1..], pins)
  }

  lemma FetchFallsBack(x: Disk, bases: seq<Attempt>, pins: map<string, Pin>)
    requires AllSensible(bases) && bases != [] && !Succeeds(bases[0], pins)
    ensures Last(x, FetchStates(x, bases, pins))
         == Last(Disk(x.topology, x.certs + Residue(bases[0], pins)),
                 FetchStates(Disk(x.topology, x.certs + Residue(bases[0], pins)), bases[1..], pins))
  {
    AttemptOutcome(x, bases[0], pins);
    var first := AttemptStates(x, bases[0], pins);
    LastConcat(x, first, FetchStates(Last(x, first), bases[1..], pins));
  }

  /** When `Fetch` returns an error the topology is untouched. */
  lemma {:induction false} FetchError(x: Disk, bases: seq<Attempt>, pins: map<string, Pin>)
    requires AllSensible(bases) && FirstSuccess(None, bases, pins)
    ensures Last(x, FetchStates(x, bases, pins)) == Disk(x.topology, x.certs + Leftovers(bases, pins))
    decreases |bases|
  {
    if bases == [] {
      UnionEmpty(x.certs);
    } else {
      FetchFallsBack(x, bases, pins);
      FetchError(Disk(x.topology, x.certs + Residue(bases[0], pins)), bases[1..], pins);
      UnionAssociative(x.certs, Residue(bases[0], pins), Leftovers(bases[1..], pins));
    }
  }

  lemma FetchServedFirst(x: Disk, bases: seq<Attempt>, pins: map<string, Pin>)
    requires AllSensible(bases) && bases != [] && Succeeds(bases[0], pins)
    ensures var d := Downloaded(bases[0]).value;
            Last(x, FetchStates(x, bases, pins)) == Disk(Some(d.topology), x.certs + Leftovers(bases[..0], pins) + d.trcs)
  {
    AttemptOutcome(x, bases[0], pins);
    UnionEmpty(x.certs);
  }

  lemma LeftoversFirst(bases: seq<Attempt>, pins: map<string, Pin>, k: nat)
    requires AllSensible(bases) && 0 < k <= |bases|
    ensures Leftovers(bases[..k], pins) == Residue(bases[0], pins) + Leftovers(bases[1..][..k - 1], pins)
  {
    assert bases[..k][1..] == bases[1..][..k - 1];
  }

  lemma LaterFirst(bases: seq<Attempt>, pins: map<string, Pin>, k: nat)
    requires AllSensible(bases) && FirstSuccess(Some(k), bases, pins) && k > 0
    ensures !Succeeds(bases[0], pins) && FirstSuccess(Some(k - 1), bases[1..], pins) && bases[1..][k - 1] == bases[k]
  {
    assert forall i | 0 <= i < |bases[1..]| :: bases[1..][i] == bases[i + 1];
  }

  /** When `Fetch` succeeds, topology and TRCs are those of the first base that did
      not fail, on top of what the failed ones left. */
  lemma {:induction false} FetchServed(x: Disk, bases: seq<Attempt>, pins: map<string, Pin>, k: nat)
    requires AllSensible(bases) && FirstSuccess(Some(k), bases, pins)
    ensures Last(x, FetchStates(x, bases, pins))
         == Disk(Some(Downloaded(bases[k]).value.topology),
                 x.certs + Leftovers(bases[..k], pins) + Downloaded(bases[k]).value.trcs)
    decreases |bases|
  {
    if k == 0 {
      FetchServedFirst(x, bases, pins);
    } else {
      LaterFirst(bases, pins, k);
      var rest, residue := bases[1..], Residue(bases[0], pins);
      var y := Disk(x.topology, x.certs + residue);
      assert Last(x, FetchStates(x, bases, pins)) == Last(y, FetchStates(y, rest, pins)) by { FetchFallsBack(x, bases, pins); }
      FetchServed(y, rest, pins, k - 1);
      LeftoversFirst(bases, pins, k);
      UnionAssociative(x.certs, residue, Leftovers(rest[..k - 1], pins));
    }
  }

  lemma {:induction false} FetchChain(x: Disk, bases: seq<Attempt>, pins: map<string, Pin>)
    requires AllSensible(bases)
    ensures Chain(x, FetchStates(x, bases, pins), StepOf(bases, pins))
    decreases |bases|
  {
    if bases != [] {
      var first := AttemptStates(x, bases[0], pins);
      AttemptChain(x, bases[0], pins);
      ServedWiden([bases[0]], bases, pins, x, first);
      if !Succeeds(bases[0], pins) {
        var y := Last(x, first);
        FetchChain(y, bases[1..], pins);
        ServedWiden(bases[1..], bases, pins, y, FetchStates(y, bases[1..], pins));
        ChainConcat(x, first, FetchStates(y, bases[1..], pins), StepOf(bases, pins));
      }
    }
  }

  lemma {:induction false} TrcStatesKeepTopology(x: Disk, names: seq<string>, d: Download, ok: string -> bool)
    requires forall i | 0 <= i < |names| :: names[i] in d.trcs
    ensures forall i | 0 <= i < |TrcStates(x, names, d, ok)| :: TrcStates(x, names, d, ok)[i].topology == x.topology
    decreases |names|
  {
    if names != [] && ok(names[0]) {
      TrcStatesKeepTopology(x.(certs := x.certs[names[0] := d.trcs[names[0]]]), names[1..], d, ok);
    }
  }

  /** Every state but the last has the topology `t`. */
  ghost predicate KeptBeforeLast(states: seq<Disk>, t: Option<Bytes>) {
    forall i | 0 <= i < |states| - 1 :: states[i].topology == t
  }

  lemma KeptConcat(x: Disk, first: seq<Disk>, rest: seq<Disk>)
    requires KeptBeforeLast(first, x.topology) && Last(x, first).topology == x.topology
    requires KeptBeforeLast(rest, x.topology)
    ensures KeptBeforeLast(first + rest, x.topology)
  {
  }

  /** Before its last state an attempt does not touch the topology. */
  lemma AttemptOrder(x: Disk, a: Attempt, pins: map<string, Pin>)
    requires Sensible(a)
    ensures KeptBeforeLast(AttemptStates(x, a, pins), x.topology)
  {
    if Verified(a, pins) {
      assert forall i | 0 <= i < |a.order| :: a.order[i] in a.order;
      TrcStatesKeepTopology(x, a.order, Downloaded(a).value, a.trcWriteOk);
    }
  }

  /** At every crash point before the last write of a fetch the old topology is still
      there, whatever bases were tried. */
  lemma {:induction false} CrashKeepsTopology(x: Disk, bases: seq<Attempt>, pins: map<string, Pin>)
    requires AllSensible(bases)
    ensures KeptBeforeLast(FetchStates(x, bases, pins), x.topology)
    decreases |bases|
  {
    if bases != [] {
      AttemptOrder(x, bases[0], pins);
      if !Succeeds(bases[0], pins) {
        var first := AttemptStates(x, bases[0], pins);
        AttemptOutcome(x, bases[0], pins);
        CrashKeepsTopology(Last(x, first), bases[1..], pins);
        KeptConcat(x, first, FetchStates(Last(x, first), bases[1..], pins));
      }
    }
  }

  /** Every TRC the base lists is on disk with its blob. */
  ghost predicate EntriesInPlace(a: Attempt, x: Disk)
    requires Complete(a)
  {
    forall i | LastOf(a.entries.value, i, |a.entries.value|) ::
      var name := TrcName(a.entries.value[i]);
      name in x.certs && x.certs[name] == a.blobs[i].value
  }

  /** The last state of a fetch that succeeds shows the topology of the base, and every TRC
      the base listed on disk with the bytes it served for it, which are those of its pin. */
  lemma NewTopologyComplete(x: Disk, bases: seq<Attempt>, pins: map<string, Pin>, k: nat)
    requires AllSensible(bases) && FirstSuccess(Some(k), bases, pins)
    ensures Complete(bases[k])
    ensures Last(x, FetchStates(x, bases, pins)).topology == bases[k].topology
    ensures EntriesInPlace(bases[k], Last(x, FetchStates(x, bases, pins))) && EntriesPinned(bases[k], pins)
  {
    FetchServed(x, bases, pins, k);
    DownloadedMeaning(bases[k]);
    VerifiedIff(bases[k], pins);
    var a, y := bases[k], Last(x, FetchStates(x, bases, pins));
    assert InPlace(Downloaded(a).value, y);
    InPlaceEntries(a, y);
  }

  lemma InPlaceEntries(a: Attempt, x: Disk)
    requires Complete(a) && Downloaded(a).Some? && InPlace(Downloaded(a).value, x)
    ensures EntriesInPlace(a, x)
  {
    DownloadedMeaning(a);
    var d, entries := Downloaded(a).value, a.entries.value;
    forall i | LastOf(entries, i, |entries|)
      ensures TrcName(entries[i]) in x.certs && x.certs[TrcName(entries[i])] == a.blobs[i].value
    {
      assert TrcName(entries[i]) in d.trcs;
    }
  }

  /** When the base lists no id twice, that is every entry. */
  lemma DistinctEntriesInPlace(a: Attempt, x: Disk, i: nat)
    requires Complete(a) && EntriesInPlace(a, x) && i < |a.entries.value|
    requires forall j, k | 0 <= j < k < |a.entries.value| :: a.entries.value[j] != a.entries.value[k]
    ensures TrcName(a.entries.value[i]) in x.certs && x.certs[TrcName(a.entries.value[i])] == a.blobs[i].value
  {
    assert LastOf(a.entries.value, i, |a.entries.value|);
  }

  /** The comment on `Fetch` promises that a failed base never leaves a mixed TRC set.
      That holds exactly when every TRC a failed base wrote is overwritten by the base
      that succeeds or was cached with the same bytes before. */
  lemma NoMixedSetIff(x: Disk, bases: seq<Attempt>, pins: map<string, Pin>, k: nat)
    requires AllSensible(bases) && FirstSuccess(Some(k), bases, pins)
    ensures Last(x, FetchStates(x, bases, pins)).certs == x.certs + Downloaded(bases[k]).value.trcs
       <==> Absorbed(Leftovers(bases[..k], pins), x.certs, Downloaded(bases[k]).value.trcs)
  {
    FetchServed(x, bases, pins, k);
    UnionAbsorbs(x.certs, Leftovers(bases[..k], pins), Downloaded(bases[k]).value.trcs);
  }

  /** Every entry of `left` is overwritten by `last` or already in `before` with these bytes. */
  ghost predicate Absorbed(left: map<string, Bytes>, before: map<string, Bytes>, last: map<string, Bytes>) {
    forall n | n in left :: n in last || (n in before && before[n] == left[n])
  }

  lemma UnionAbsorbs(before: map<string, Bytes>, left: map<string, Bytes>, last: map<string, Bytes>)
    ensures before + left + last == before + last <==> Absorbed(left, before, last)
  {
    var u, v := before + left + last, before + last;
    if u == v {
      forall n | n in left && n !in last ensures n in before && before[n] == left[n] {
        assert n in u && u[n] == left[n];
      }
    }
  }

  /** When every failed base failed before its write phase there are no leftovers. */
  lemma {:induction false} EarlyFailuresLeaveNothing(bases: seq<Attempt>, pins: map<string, Pin>)
    requires AllSensible(bases) && forall i | 0 <= i < |bases| :: !Verified(bases[i], pins)
    ensures Leftovers(bases, pins) == map[]
  {
    if bases != [] { EarlyFailuresLeaveNothing(bases[1..], pins); }
  }

  /** Two bases: the first lists one TRC and cannot write its topology, the second lists none. */
  function MixedBases(id: TrcId, trc: Bytes, topo: Bytes): seq<Attempt> {
    [Attempt(true, Some(topo), Some("1-1"), Some([id]), [Some(trc)], [TrcName(id)], n => true, false),
     Attempt(true, Some(topo), Some("1-1"), Some([]), [], [], n => true, true)]
  }

  /** A mixed set, for every TRC: the first base writes it and then fails to write the
      topology; the second base, which lists no TRC, succeeds and the TRC stays. */
  lemma MixedSetExample(id: TrcId, trc: Bytes, topo: Bytes)
    ensures var bases := MixedBases(id, trc, topo);
            && AllSensible(bases) && FirstSuccess(Some(1), bases, map[])
            && bases[1].entries == Some([])
            && TrcName(id) in Last(Disk(None, map[]), FetchStates(Disk(None, map[]), bases, map[])).certs
  {
    var name, bases := TrcName(id), MixedBases(id, trc, topo);
    var a, b := bases[0], bases[1];
    OneTrc(id, trc);
    var d := Download(topo, map[name := trc]);
    assert Downloaded(a) == Some(d) && Downloaded(b) == Some(Download(topo, map[]));
    assert Sensible(a) && Sensible(b) && !Succeeds(a, map[]) && Succeeds(b, map[]);
    FetchServed(Disk(None, map[]), bases, map[], 1);
    assert [name][1..] == [] && [a][1..] == [] && bases[..1] == [a];
    assert PartialTrcs([name], d, a.trcWriteOk) == map[name := trc];
    UnionEmpty(Residue(a, map[]));
    assert Leftovers([a], map[]) == map[name := trc];
  }

  lemma OneTrc(id: TrcId, trc: Bytes)
    ensures TrcMap([id], [Some(trc)], 1) == map[TrcName(id) := trc]
  {
    assert TrcMap([id], [Some(trc)], 0) == map[];
  }

  // ---- Any sequence of fetches and crashes ----

  /** One agent lifetime: a fetch that is cut off after at most `writes` writes. */
  datatype Session = Session(bases: seq<Attempt>, writes: nat)

  ghost predicate AllSessionsSensible(ss: seq<Session>) {
    forall i | 0 <= i < |ss| :: AllSensible(ss[i].bases)
  }

  function SessionStates(x: Disk, s: Session, pins: map<string, Pin>): seq<Disk>
    requires AllSensible(s.bases)
  {
    var states := FetchStates(x, s.bases, pins);
    if s.writes < |states| then states[..s.writes] else states
  }

  /** Every disk state of a run of sessions, each starting from what the last left. */
  function RunStates(x: Disk, ss: seq<Session>, pins: map<string, Pin>): seq<Disk>
    requires AllSessionsSensible(ss)
    decreases |ss|
  {
    if ss == [] then []
    else
      var first := SessionStates(x, ss[0], pins);
      first + RunStates(Last(x, first), ss[1..], pins)
  }

  function AllBases(ss: seq<Session>): seq<Attempt> {
    if ss == [] then [] else ss[0].bases + AllBases(ss[1..])
  }

  lemma {:induction false} RunIsChain(x: Disk, ss: seq<Session>, pins: map<string, Pin>)
    requires AllSessionsSensible(ss)
    ensures Chain(x, RunStates(x, ss, pins), StepOf(AllBases(ss), pins))
    decreases |ss|
  {
    if ss != [] {
      var all, first := AllBases(ss), SessionStates(x, ss[0], pins);
      FetchChain(x, ss[0].bases, pins);
      ChainPrefix(x, FetchStates(x, ss[0].bases, pins), |first|, StepOf(ss[0].bases, pins));
      assert first == FetchStates(x, ss[0].bases, pins)[..|first|];
      ServedWiden(ss[0].bases, all, pins, x, first);
      var y := Last(x, first);
      RunIsChain(y, ss[1..], pins);
      ServedWiden(AllBases(ss[1..]), all, pins, y, RunStates(y, ss[1..], pins));
      ChainConcat(x, first, RunStates(y, ss[1..], pins), StepOf(all, pins));
    }
  }

  /** Every cached TRC whose name is pinned has the pinned bytes. */
  ghost predicate PinsHeld(x: Disk, pins: map<string, Pin>) {
    forall name | name in x.certs && name in pins && pins[name].Pinned? :: x.certs[name] == pins[name].bytes
  }

  /** Every TRC the base lists is cached under its name. */
  ghost predicate Cached(a: Attempt, certs: map<string, Bytes>) {
    a.entries.Some? && forall i | 0 <= i < |a.entries.value| :: TrcName(a.entries.value[i]) in certs
  }

  /** The topology is the original one, or was served by a base that passed the checks and
      all of whose listed TRCs are cached. */
  ghost predicate Accompanied(y: Disk, x: Disk, bases: seq<Attempt>, pins: map<string, Pin>) {
    || y.topology == x.topology
    || exists j :: 0 <= j < |bases| && Complete(bases[j]) && EntriesPinned(bases[j], pins)
                   && y.topology == bases[j].topology && Cached(bases[j], y.certs)
  }

  lemma ServedAccompanied(d: Download, y: Disk, x: Disk, bases: seq<Attempt>, pins: map<string, Pin>)
    requires Served(d, bases, pins) && y.topology == Some(d.topology) && d.trcs.Keys <= y.certs.Keys
    ensures Accompanied(y, x, bases, pins)
  {
    var j :| 0 <= j < |bases| && Verified(bases[j], pins) && Downloaded(bases[j]) == Some(d);
    DownloadedMeaning(bases[j]);
    VerifiedIff(bases[j], pins);
    var entries := bases[j].entries.value;
    forall i | 0 <= i < |entries| ensures TrcName(entries[i]) in y.certs {
      assert Listed(entries, |entries|, TrcName(entries[i]));
    }
  }

  lemma CachedGrows(a: Attempt, few: map<string, Bytes>, many: map<string, Bytes>)
    requires Cached(a, few) && few.Keys <= many.Keys
    ensures Cached(a, many)
  {
  }

  /** Nothing cached is ever removed. */
  ghost predicate Grown(y: Disk, x: Disk) {
    x.certs.Keys <= y.certs.Keys
  }

  ghost predicate Safe(y: Disk, x: Disk, bases: seq<Attempt>, pins: map<string, Pin>) {
    PinsHeld(y, pins) && Accompanied(y, x, bases, pins) && Grown(y, x)
  }

  lemma StepKeeps(x: Disk, y: Disk, z: Disk, bases: seq<Attempt>, pins: map<string, Pin>)
    requires Step(y, z, bases, pins) && Safe(y, x, bases, pins)
    ensures Safe(z, x, bases, pins)
  {
    var d :| Served(d, bases, pins) && OneWrite(y, z, d);
    if TrcWrite(y, z, d) {
      var name :| name in d.trcs && z == y.(certs := y.certs[name := d.trcs[name]]);
      assert y.certs.Keys <= z.certs.Keys;
      if y.topology != x.topology {
        var j :| 0 <= j < |bases| && Complete(bases[j]) && EntriesPinned(bases[j], pins)
                 && y.topology == bases[j].topology && Cached(bases[j], y.certs);
        CachedGrows(bases[j], y.certs, z.certs);
      }
    } else {
      assert d.trcs.Keys <= z.certs.Keys;
      ServedAccompanied(d, z, x, bases, pins);
    }
  }

  /** In every state of every run of fetches, fallbacks, write failures and crashes:
      pinned TRCs keep the pinned bytes, a new topology is only visible once all the
      TRCs its base listed are cached, and no cached file is lost. */
  lemma EveryStateSafe(x: Disk, ss: seq<Session>, pins: map<string, Pin>)
    requires AllSessionsSensible(ss) && PinsHeld(x, pins)
    ensures forall i | 0 <= i < |RunStates(x, ss, pins)| :: Safe(RunStates(x, ss, pins)[i], x, AllBases(ss), pins)
  {
    var bases := AllBases(ss);
    RunIsChain(x, ss, pins);
    forall y, z | Safe(y, x, bases, pins) && Step(y, z, bases, pins) ensures Safe(z, x, bases, pins) {
      StepKeeps(x, y, z, bases, pins);
    }
    ChainInvariant(x, RunStates(x, ss, pins), StepOf(bases, pins), y => Safe(y, x, bases, pins));
  }
}
