/** Fetching topology.json and the TRCs into the configuration directory. */
module Bootstrap {
  import opened Wrappers
  import opened Text
  import opened Runs

  /** File contents. */
  type Bytes = string

  datatype TrcId = TrcId(isd: int, base: int, serial: int)

  /** `ISD%d-B%d-S%d.trc`. */
  function TrcName(id: TrcId): string {
    Concat(["ISD", SignedDec(id.isd), "-B", SignedDec(id.base), "-S", SignedDec(id.serial), ".trc"])
  }

  lemma TrcNameText(id: TrcId)
    ensures TrcName(id)
         == "ISD" + (SignedDec(id.isd) + "-" + ['B'] + (SignedDec(id.base) + "-" + ['S'] + (SignedDec(id.serial) + ".trc")))
  {
    var c := SignedDec(id.serial) + ".trc";
    var b := SignedDec(id.base) + "-" + ['S'] + c;
    var r2 := [SignedDec(id.serial), ".trc"];
    var r1 := [SignedDec(id.base), "-S"] + r2;
    var r0 := [SignedDec(id.isd), "-B"] + r1;
    assert r2 == r2 + [];
    ConcatThree(SignedDec(id.serial), ".trc", []);
    ConcatThree(SignedDec(id.base), "-S", r2);
    ConcatThree(SignedDec(id.isd), "-B", r1);
    assert SignedDec(id.base) + ("-S" + c) == b;
    assert SignedDec(id.isd) + ("-B" + b) == SignedDec(id.isd) + "-" + ['B'] + b;
    assert ["ISD", SignedDec(id.isd), "-B", SignedDec(id.base), "-S", SignedDec(id.serial), ".trc"] == ["ISD"] + r0;
    assert (["ISD"] + r0)[1..] == r0;
  }

  lemma ConcatThree(a: string, b: string, rest: seq<string>)
    ensures Concat([a, b] + rest) == a + (b + Concat(rest))
  {
    assert ([a, b] + rest)[1..] == [b] + rest && ([b] + rest)[1..] == rest;
  }

  lemma NamePart(n: int, letter: char, rest: string)
    requires letter == 'B' || letter == 'S'
    ensures SplitOn(SignedDec(n) + "-" + [letter] + rest, letter) == [SignedDec(n) + "-"] + SplitOn(rest, letter)
  {
    SignedDecChars(n);
    SplitHead(SignedDec(n) + "-", rest, letter);
  }

  /** Different TRCs have different file names, so a pin applies to one TRC only. */
  lemma TrcNameInjective(a: TrcId, b: TrcId)
    requires TrcName(a) == TrcName(b)
    ensures a == b
  {
    var a2, b2 := SignedDec(a.serial) + ".trc", SignedDec(b.serial) + ".trc";
    var a1, b1 := SignedDec(a.base) + "-" + ['S'] + a2, SignedDec(b.base) + "-" + ['S'] + b2;
    var a0, b0 := SignedDec(a.isd) + "-" + ['B'] + a1, SignedDec(b.isd) + "-" + ['B'] + b1;
    TrcNameText(a);
    TrcNameText(b);
    assert ("ISD" + a0)[3..] == a0 && ("ISD" + b0)[3..] == b0;
    TailSame('B', a.isd, a1, b.isd, b1);
    TailSame('S', a.base, a2, b.base, b2);
    assert a2[..|a2| - 4] == SignedDec(a.serial) && b2[..|b2| - 4] == SignedDec(b.serial);
    SignedDecInjective(a.serial, b.serial);
  }

  lemma TailSame(letter: char, m: int, r: string, n: int, s: string)
    requires letter == 'B' || letter == 'S'
    requires SignedDec(m) + "-" + [letter] + r == SignedDec(n) + "-" + [letter] + s
    ensures m == n && r == s
  {
    NamePart(m, letter, r);
    NamePart(n, letter, s);
    var x, y := SignedDec(m) + "-", SignedDec(n) + "-";
    assert x == ([x] + SplitOn(r, letter))[0] == ([y] + SplitOn(s, letter))[0] == y;
    assert x[..|x| - 1] == SignedDec(m) && y[..|y| - 1] == SignedDec(n);
    SignedDecInjective(m, n);
    assert (SignedDec(m) + "-" + [letter] + r)[|x| + 1..] == r;
    assert (SignedDec(n) + "-" + [letter] + s)[|y| + 1..] == s;
  }

  // ---- One attempt against one base ----

  /** What one base and the local file system answer during `fetchFrom`: creating the
      directory, the topology and its `isd_as` (`None` if it is not JSON), the TRC list,
      one blob per entry, the order in which the TRC map is iterated, and which writes
      succeed. */
  datatype Attempt = Attempt(
    mkdirOk: bool,
    topology: Option<Bytes>,
    isdAs: Option<string>,
    entries: Option<seq<TrcId>>,
    blobs: seq<Option<Bytes>>,
    order: seq<string>,
    trcWriteOk: string -> bool,
    topologyWriteOk: bool)

  datatype Pin = Pinned(bytes: Bytes) | Unreadable

  datatype Download = Download(topology: Bytes, trcs: map<string, Bytes>)

  datatype Disk = Disk(topology: Option<Bytes>, certs: map<string, Bytes>)

  predicate AllServed(blobs: seq<Option<Bytes>>, n: nat)
    requires n <= |blobs|
  {
    forall i | 0 <= i < n :: blobs[i].Some?
  }

  /** The TRC map after the entries before `n`: a repeated entry overwrites. */
  function TrcMap(entries: seq<TrcId>, blobs: seq<Option<Bytes>>, n: nat): map<string, Bytes>
    requires n <= |entries| && n <= |blobs| && AllServed(blobs, n)
  {
    if n == 0 then map[] else TrcAdd(TrcMap(entries, blobs, n - 1), entries[n - 1], blobs[n - 1].value)
  }

  function TrcAdd(trcs: map<string, Bytes>, id: TrcId, raw: Bytes): map<string, Bytes> {
    trcs[TrcName(id) := raw]
  }

  /** No later entry of the list has the same id. */
  ghost predicate LastOf(entries: seq<TrcId>, i: int, n: int) {
    0 <= i < n <= |entries| && forall j | i < j < n :: entries[j] != entries[i]
  }

  ghost predicate Listed(entries: seq<TrcId>, n: nat, name: string)
    requires n <= |entries|
  {
    exists i :: 0 <= i < n && TrcName(entries[i]) == name
  }

  ghost predicate NamesListed(trcs: map<string, Bytes>, entries: seq<TrcId>) {
    forall name :: name in trcs <==> Listed(entries, |entries|, name)
  }

  ghost predicate LastBlobs(trcs: map<string, Bytes>, entries: seq<TrcId>, blobs: seq<Option<Bytes>>)
    requires |entries| <= |blobs|
  {
    forall i | LastOf(entries, i, |entries|) :: TrcName(entries[i]) in trcs && blobs[i] == Some(trcs[TrcName(entries[i])])
  }

  /** The map names exactly the listed TRCs, each with the blob of its last entry. */
  ghost predicate Collects(trcs: map<string, Bytes>, entries: seq<TrcId>, blobs: seq<Option<Bytes>>)
    requires |entries| <= |blobs|
  {
    NamesListed(trcs, entries) && LastBlobs(trcs, entries, blobs)
  }

  lemma {:induction false} TrcMapNames(entries: seq<TrcId>, blobs: seq<Option<Bytes>>, n: nat, name: string)
    requires n <= |entries| && n <= |blobs| && AllServed(blobs, n)
    ensures name in TrcMap(entries, blobs, n) <==> Listed(entries, n, name)
  {
    if n > 0 { TrcMapNames(entries, blobs, n - 1, name); }
  }

  lemma {:induction false} TrcMapBlob(entries: seq<TrcId>, blobs: seq<Option<Bytes>>, n: nat, i: nat)
    requires n <= |entries| && n <= |blobs| && AllServed(blobs, n) && LastOf(entries, i, n)
    ensures TrcName(entries[i]) in TrcMap(entries, blobs, n)
    ensures TrcMap(entries, blobs, n)[TrcName(entries[i])] == blobs[i].value
  {
    if i < n - 1 {
      TrcMapBlob(entries, blobs, n - 1, i);
      if TrcName(entries[n - 1]) == TrcName(entries[i]) { TrcNameInjective(entries[n - 1], entries[i]); }
    }
  }

  lemma TrcMapLastBlobs(entries: seq<TrcId>, blobs: seq<Option<Bytes>>)
    requires |entries| <= |blobs| && AllServed(blobs, |entries|)
    ensures LastBlobs(TrcMap(entries, blobs, |entries|), entries, blobs)
  {
    var n := |entries|;
    var trcs := TrcMap(entries, blobs, n);
    forall i | LastOf(entries, i, n) ensures TrcName(entries[i]) in trcs && blobs[i] == Some(trcs[TrcName(entries[i])]) {
      TrcMapBlob(entries, blobs, n, i);
    }
  }

  /** The collected map on the entries themselves. */
  lemma TrcMapCollects(entries: seq<TrcId>, blobs: seq<Option<Bytes>>)
    requires |entries| <= |blobs| && AllServed(blobs, |entries|)
    ensures Collects(TrcMap(entries, blobs, |entries|), entries, blobs)
  {
    var trcs := TrcMap(entries, blobs, |entries|);
    forall name ensures name in trcs <==> Listed(entries, |entries|, name) {
      TrcMapNames(entries, blobs, |entries|, name);
    }
    TrcMapLastBlobs(entries, blobs);
  }

  lemma TrcMapNext(entries: seq<TrcId>, blobs: seq<Option<Bytes>>, i: nat)
    requires i < |entries| && i < |blobs| && AllServed(blobs, i) && blobs[i].Some?
    ensures AllServed(blobs, i + 1)
    ensures TrcMap(entries, blobs, i + 1) == TrcAdd(TrcMap(entries, blobs, i), entries[i], blobs[i].value)
  {
  }

  /** The download phase: everything is fetched and parsed before anything is written. */
  function Downloaded(a: Attempt): Option<Download> {
    if !a.mkdirOk || a.topology.None? || a.isdAs.None? || a.isdAs.value == "" || a.entries.None?
       || |a.blobs| < |a.entries.value| || !AllServed(a.blobs, |a.entries.value|)
    then None
    else Some(Download(a.topology.value, TrcMap(a.entries.value, a.blobs, |a.entries.value|)))
  }

  /** No downloaded TRC contradicts its pin, and every pin that exists could be read. */
  predicate PinsOk(d: Download, pins: map<string, Pin>) {
    forall name | name in d.trcs && name in pins :: pins[name] == Pinned(d.trcs[name])
  }

  predicate Verified(a: Attempt, pins: map<string, Pin>) {
    Downloaded(a).Some? && PinsOk(Downloaded(a).value, pins)
  }

  /** `order` lists exactly the downloaded TRCs, and there is one response per entry. */
  ghost predicate Sensible(a: Attempt) {
    && (a.entries.Some? ==> |a.blobs| == |a.entries.value|)
    && (Downloaded(a).Some? ==> forall name :: name in a.order <==> name in Downloaded(a).value.trcs)
  }

  /** The attempt passes the checks and none of its writes fails. */
  predicate Succeeds(a: Attempt, pins: map<string, Pin>) {
    && Verified(a, pins)
    && (forall name | name in Downloaded(a).value.trcs :: a.trcWriteOk(name))
    && a.topologyWriteOk
  }

  /** What the base has to serve, on the responses themselves. */
  ghost predicate Complete(a: Attempt) {
    && a.mkdirOk && a.topology.Some? && a.isdAs.Some? && a.isdAs.value != "" && a.entries.Some?
    && |a.entries.value| <= |a.blobs| && forall i | 0 <= i < |a.entries.value| :: a.blobs[i].Some?
  }

  /** The blob that counts for every listed and pinned TRC is the pin. */
  ghost predicate EntriesPinned(a: Attempt, pins: map<string, Pin>)
    requires Complete(a)
  {
    forall i | LastOf(a.entries.value, i, |a.entries.value|) && TrcName(a.entries.value[i]) in pins ::
      pins[TrcName(a.entries.value[i])] == Pinned(a.blobs[i].value)
  }

  /** What a download holds, on the responses of the base. */
  lemma DownloadedMeaning(a: Attempt)
    ensures Downloaded(a).Some? <==> Complete(a)
    ensures Complete(a) ==>
              && Some(Downloaded(a).value.topology) == a.topology
              && Collects(Downloaded(a).value.trcs, a.entries.value, a.blobs)
  {
    if Complete(a) { TrcMapCollects(a.entries.value, a.blobs); }
  }

  lemma {:induction false} LastExists(entries: seq<TrcId>, i: nat, n: nat) returns (k: nat)
    requires i < n <= |entries|
    ensures LastOf(entries, k, n) && entries[k] == entries[i]
    decreases n
  {
    if entries[n - 1] == entries[i] {
      k := n - 1;
    } else {
      k := LastExists(entries, i, n - 1);
    }
  }

  /** The checks before the write phase pass exactly when the base serves everything and
      every listed TRC that is pinned has the pinned bytes. */
  lemma VerifiedIff(a: Attempt, pins: map<string, Pin>)
    ensures Verified(a, pins) <==> Complete(a) && EntriesPinned(a, pins)
  {
    DownloadedMeaning(a);
    if Complete(a) {
      var d, entries := Downloaded(a).value, a.entries.value;
      forall i | LastOf(entries, i, |entries|) ensures d.trcs[TrcName(entries[i])] == a.blobs[i].value {
      }
      if EntriesPinned(a, pins) {
        forall name | name in d.trcs && name in pins ensures pins[name] == Pinned(d.trcs[name]) {
          assert Listed(entries, |entries|, name);
          var i :| 0 <= i < |entries| && TrcName(entries[i]) == name;
          var k := LastExists(entries, i, |entries|);
        }
      }
    }
  }

  // ---- The disk states one attempt goes through ----

  /** The states after each TRC write, up to the first write that fails. */
  function TrcStates(x: Disk, names: seq<string>, d: Download, ok: string -> bool): seq<Disk>
    requires forall i | 0 <= i < |names| :: names[i] in d.trcs
    decreases |names|
  {
    if names == [] || !ok(names[0]) then []
    else
      var y := x.(certs := x.certs[names[0] := d.trcs[names[0]]]);
      [y] + TrcStates(y, names[1..], d, ok)
  }

  /** Every state a crash during `fetchFrom` can leave, after the initial one. */
  function AttemptStates(x: Disk, a: Attempt, pins: map<string, Pin>): seq<Disk>
    requires Sensible(a)
  {
    if !Verified(a, pins) then []
    else
      var d := Downloaded(a).value;
      var states := TrcStates(x, a.order, d, a.trcWriteOk);
      if Succeeds(a, pins)
      then states + [Last(x, states).(topology := Some(d.topology))]
      else states
  }

  /** The states of a whole `Fetch`: bases in order until one succeeds. */
  function FetchStates(x: Disk, bases: seq<Attempt>, pins: map<string, Pin>): seq<Disk>
    requires AllSensible(bases)
    decreases |bases|
  {
    if bases == [] then []
    else
      var states := AttemptStates(x, bases[0], pins);
      if Succeeds(bases[0], pins) then states
      else states + FetchStates(Last(x, states), bases[1..], pins)
  }

  // ---- The code ----

  method DownloadTrcs(entries: seq<TrcId>, blobs: seq<Option<Bytes>>) returns (r: Option<map<string, Bytes>>)
    requires |blobs| == |entries|
    ensures r.Some? <==> AllServed(blobs, |entries|)
    ensures r.Some? ==> r.value == TrcMap(entries, blobs, |entries|) && Collects(r.value, entries, blobs)
  {
    var trcs: map<string, Bytes> := map[];
    for i := 0 to |entries|
      invariant AllServed(blobs, i)
      invariant trcs == TrcMap(entries, blobs, i)
    {
      if blobs[i].None? {
        return None;
      }
      TrcMapNext(entries, blobs, i);
      trcs := TrcAdd(trcs, entries[i], blobs[i].value);
    }
    TrcMapCollects(entries, blobs);
    r := Some(trcs);
  }

  class ConfigDir {
    var topology: Option<Bytes>
    var certs: map<string, Bytes>
    const pins: map<string, Pin>
    /** Every state of the directory that a crash could leave, the current one last. */
    ghost var history: seq<Disk>

    ghost function Current(): Disk
      reads this
    { Disk(topology, certs) }

    ghost predicate Valid()
      reads this
    { history != [] && history[|history| - 1] == Current() }

    /** `atomicWrite` of one TRC: temporary file and rename, so the new content appears
        whole or not at all. */
    method WriteTrc(name: string, raw: Bytes, ok: bool)
      requires Valid()
      modifies this
      ensures Valid() && topology == old(topology)
      ensures ok ==> certs == old(certs)[name := raw] && history == old(history) + [Current()]
      ensures !ok ==> certs == old(certs) && history == old(history)
    {
      if ok {
        certs := certs[name := raw];
        history := history + [Disk(topology, certs)];
      }
    }

    method DownloadFrom(a: Attempt) returns (r: Option<Download>)
      requires Sensible(a)
      ensures r == Downloaded(a)
    {
      if !a.mkdirOk || a.topology.None? || a.isdAs.None? || a.isdAs.value == "" || a.entries.None? {
        return None;
      }
      var trcs := DownloadTrcs(a.entries.value, a.blobs);
      if trcs.None? {
        return None;
      }
      r := Some(Download(a.topology.value, trcs.value));
    }

    method CheckPins(a: Attempt, d: Download) returns (ok: bool)
      requires Downloaded(a) == Some(d) && Sensible(a)
      ensures ok == PinsOk(d, pins)
    {
      for i := 0 to |a.order|
        invariant forall j | 0 <= j < i && a.order[j] in pins :: pins[a.order[j]] == Pinned(d.trcs[a.order[j]])
      {
        var name := a.order[i];
        assert name in a.order;
        if name in pins && pins[name] != Pinned(d.trcs[name]) {
          return false;
        }
      }
      forall name | name in d.trcs && name in pins ensures pins[name] == Pinned(d.trcs[name]) {
        assert name in a.order;
      }
      ok := true;
    }

    /** The TRC write loop; `done` says that no write failed. */
    method WriteTrcs(names: seq<string>, d: Download, ok: string -> bool) returns (done: bool)
      requires Valid() && forall i | 0 <= i < |names| :: names[i] in d.trcs
      modifies this
      ensures Valid()
      ensures history == old(history) + TrcStates(old(Current()), names, d, ok)
      ensures done == forall i | 0 <= i < |names| :: ok(names[i])
    {
      ghost var all := history + TrcStates(Current(), names, d, ok);
      assert names[0..] == names;
      for i := 0 to |names|
        invariant Valid()
        invariant forall j | 0 <= j < i :: ok(names[j])
        invariant all == history + TrcStates(Current(), names[i..], d, ok)
      {
        ghost var y, h := Current(), history;
        TrcUnfold(y, h, names, i, d, ok);
        if !ok(names[i]) {
          return false;
        }
        WriteTrc(names[i], d.trcs[names[i]], true);
      }
      assert history + [] == history;
      done := true;
    }

    /** Download and pin check: everything before the first write. */
    method Check(a: Attempt) returns (r: Option<Download>)
      requires Sensible(a)
      ensures r.Some? <==> Verified(a, pins)
      ensures r.Some? <==> Complete(a) && EntriesPinned(a, pins)
      ensures r.Some? ==> Downloaded(a) == r
    {
      VerifiedIff(a, pins);
      r := DownloadFrom(a);
      if r.None? {
        return None;
      }
      var pinned := CheckPins(a, r.value);
      if !pinned {
        return None;
      }
    }

    /** `atomicWrite` of the topology. */
    method WriteTopology(raw: Bytes)
      requires Valid()
      modifies this
      ensures Valid()
      ensures history == old(history) + [old(Current()).(topology := Some(raw))]
    {
      topology := Some(raw);
      history := history + [Disk(topology, certs)];
    }

    method FetchFrom(a: Attempt) returns (ok: bool)
      requires Valid() && Sensible(a)
      modifies this
      ensures Valid()
      ensures history == old(history) + AttemptStates(old(Current()), a, pins)
      ensures ok == Succeeds(a, pins)
    {
      ghost var x, h := Current(), history;
      var r := Check(a);
      if r.None? {
        NotVerified(x, a, pins);
        assert h + [] == h;
        return false;
      }
      var d := r.value;
      OrderListed(a);
      var done := WriteTrcs(a.order, d, a.trcWriteOk);
      AttemptUnfold(x, h, a, pins);
      if !done || !a.topologyWriteOk {
        return false;
      }
      WriteTopology(d.topology);
      ok := true;
    }

    /** The loop of `Fetch` over the candidate bases. */
    method FetchFirst(bases: seq<Attempt>) returns (r: Option<nat>)
      requires Valid() && AllSensible(bases)
      modifies this
      ensures Valid()
      ensures history == old(history) + FetchStates(old(Current()), bases, pins)
      ensures FirstSuccess(r, bases, pins)
    {
      ghost var all := history + FetchStates(Current(), bases, pins);
      assert bases[0..] == bases;
      for i := 0 to |bases|
        invariant Valid()
        invariant all == history + FetchStates(Current(), bases[i..], pins)
        invariant forall j | 0 <= j < i :: !Succeeds(bases[j], pins)
      {
        var ok := TryBase(bases, i);
        if ok {
          return Some(i);
        }
      }
      assert history + [] == history;
      r := None;
    }

    /** One round of the loop. */
    method TryBase(bases: seq<Attempt>, i: nat) returns (ok: bool)
      requires Valid() && AllSensible(bases) && i < |bases|
      modifies this
      ensures Valid() && ok == Succeeds(bases[i], pins)
      ensures old(history + FetchStates(Current(), bases[i..], pins))
           == if ok then history else history + FetchStates(Current(), bases[i + 1..], pins)
    {
      ghost var x, h := Current(), history;
      ok := FetchFrom(bases[i]);
      FetchUnfold(x, h, bases, i, pins);
    }

    /** `Fetch`; `urls` is what the discoverer returned, `None` for its error. */
    method Fetch(urls: Option<seq<Attempt>>) returns (r: Option<nat>)
      requires Valid() && (urls.Some? ==> AllSensible(urls.value))
      modifies this
      ensures Valid()
      ensures urls.None? ==> r.None? && history == old(history)
      ensures urls.Some? ==> history == old(history) + FetchStates(old(Current()), urls.value, pins)
      ensures urls.Some? ==> FirstSuccess(r, urls.value, pins)
    {
      if urls.None? {
        return None;
      }
      r := FetchFirst(urls.value);
    }
  }

  lemma TrcUnfold(x: Disk, h: seq<Disk>, names: seq<string>, i: nat, d: Download, ok: string -> bool)
    requires i < |names| && forall j | 0 <= j < |names| :: names[j] in d.trcs
    ensures var y := x.(certs := x.certs[names[i] := d.trcs[names[i]]]);
            h + TrcStates(x, names[i..], d, ok)
            == if ok(names[i]) then h + [y] + TrcStates(y, names[i + 1..], d, ok) else h
  {
    assert names[i..][0] == names[i] && names[i..][1..] == names[i + 1..];
    var y := x.(certs := x.certs[names[i] := d.trcs[names[i]]]);
    Append3(h, [y], TrcStates(y, names[i + 1..], d, ok));
    assert h + [] == h;
  }

  lemma OrderListed(a: Attempt)
    requires Sensible(a) && Downloaded(a).Some?
    ensures forall i | 0 <= i < |a.order| :: a.order[i] in Downloaded(a).value.trcs
    ensures forall name | name in Downloaded(a).value.trcs :: exists i :: 0 <= i < |a.order| && a.order[i] == name
  {
    assert forall i | 0 <= i < |a.order| :: a.order[i] in a.order;
  }

  lemma NotVerified(x: Disk, a: Attempt, pins: map<string, Pin>)
    requires Sensible(a) && !Verified(a, pins)
    ensures AttemptStates(x, a, pins) == [] && !Succeeds(a, pins)
  {
  }

  /** The history after a verified attempt, in terms of its TRC writes. */
  lemma AttemptUnfold(x: Disk, h: seq<Disk>, a: Attempt, pins: map<string, Pin>)
    requires Sensible(a) && Verified(a, pins) && forall i | 0 <= i < |a.order| :: a.order[i] in Downloaded(a).value.trcs
    requires h != [] && h[|h| - 1] == x
    ensures var d := Downloaded(a).value;
            var after := h + TrcStates(x, a.order, d, a.trcWriteOk);
            && (Succeeds(a, pins) <==> (forall i | 0 <= i < |a.order| :: a.trcWriteOk(a.order[i])) && a.topologyWriteOk)
            && (h + AttemptStates(x, a, pins)
                == if Succeeds(a, pins) then after + [after[|after| - 1].(topology := Some(d.topology))] else after)
  {
    OrderListed(a);
    var d := Downloaded(a).value;
    var states := TrcStates(x, a.order, d, a.trcWriteOk);
    LastAppend(x, h, states);
    Append3(h, states, [Last(x, states).(topology := Some(d.topology))]);
  }

  ghost predicate AllSensible(bases: seq<Attempt>) {
    forall i | 0 <= i < |bases| :: Sensible(bases[i])
  }

  /** `r` is the first base that succeeds, or `None` if every base fails. */
  ghost predicate FirstSuccess(r: Option<nat>, bases: seq<Attempt>, pins: map<string, Pin>) {
    && (r.Some? ==> r.value < |bases| && Succeeds(bases[r.value], pins))
    && forall i | 0 <= i < (if r.Some? then r.value else |bases|) && i < |bases| :: !Succeeds(bases[i], pins)
  }

  lemma FetchUnfold(x: Disk, h: seq<Disk>, bases: seq<Attempt>, i: nat, pins: map<string, Pin>)
    requires AllSensible(bases) && i < |bases| && h != [] && h[|h| - 1] == x
    ensures var states := AttemptStates(x, bases[i], pins);
            && (h + states)[|h + states| - 1] == Last(x, states)
            && (Succeeds(bases[i], pins) ==> h + FetchStates(x, bases[i..], pins) == h + states)
            && (!Succeeds(bases[i], pins) ==>
                  h + FetchStates(x, bases[i..], pins) == h + states + FetchStates(Last(x, states), bases[i + 1..], pins))
  {
    var states := AttemptStates(x, bases[i], pins);
    LastAppend(x, h, states);
    assert bases[i..][0] == bases[i] && bases[i..][1..] == bases[i + 1..];
    if !Succeeds(bases[i], pins) {
      var rest := FetchStates(Last(x, states), bases[i + 1..], pins);
      assert h + (states + rest) == h + states + rest;
    }
  }

  lemma LastAppend(x: Disk, h: seq<Disk>, states: seq<Disk>)
    requires h != [] && h[|h| - 1] == x
    ensures (h + states)[|h + states| - 1] == Last(x, states)
  {
  }
}
