/** The AS-side topology document: replacing and reading the managed `sigs` entries. */
module Topology {
  import opened Wrappers

  /** JSON values with exact keys; numbers keep their text. */
  datatype Json =
    | Null
    | Bool(b: bool)
    | Num(text: string)
    | Str(s: string)
    | Arr(items: seq<Json>)
    | Obj(fields: map<string, Json>)

  datatype SIG = SIG(ctrlAddr: string, dataAddr: string)

  function EncodeSig(sig: SIG): Json {
    Obj(map["ctrl_addr" := Str(sig.ctrlAddr), "data_addr" := Str(sig.dataAddr)])
  }

  /** A string field of a struct: absent and null leave it empty. */
  function StringField(m: map<string, Json>, key: string): Option<string> {
    if key !in m || m[key].Null? then Some("") else if m[key].Str? then Some(m[key].s) else None
  }

  /** Decoding one entry into the SIG struct; other fields are ignored. */
  function DecodeSig(j: Json): Option<SIG> {
    match j
    case Null => Some(SIG("", ""))
    case Obj(m) =>
      (match (StringField(m, "ctrl_addr"), StringField(m, "data_addr"))
       case (Some(c), Some(d)) => Some(SIG(c, d))
       case _ => None)
    case _ => None
  }

  // ---- The sigs map ----

  /** `strings.HasPrefix`. */
  predicate HasPrefix(n: string, prefix: string) { prefix <= n }

  /** The entries whose names start with the prefix. */
  function Managed(sigs: map<string, Json>, prefix: string): map<string, Json> {
    map n | n in sigs && HasPrefix(n, prefix) :: sigs[n]
  }

  function Unmanaged(sigs: map<string, Json>, prefix: string): map<string, Json> {
    map n | n in sigs && !HasPrefix(n, prefix) :: sigs[n]
  }

  function PrefixedNames(desired: map<string, SIG>, prefix: string): set<string> {
    set name | name in desired :: prefix + name
  }

  /** The desired entries under their prefixed names. */
  function Entries(desired: map<string, SIG>, prefix: string): map<string, Json> {
    map n | n in PrefixedNames(desired, prefix) && n[|prefix|..] in desired :: EncodeSig(desired[n[|prefix|..]])
  }

  /** The sigs map after a patch: unmanaged entries stay, managed ones are replaced. */
  function Replace(sigs: map<string, Json>, desired: map<string, SIG>, prefix: string): map<string, Json> {
    Unmanaged(sigs, prefix) + Entries(desired, prefix)
  }

  // ---- Documents ----

  /** What `PatchSigs` does to the document: the new document, a parse error, or a write
      to a nil map (a null document, or a null `sigs` with something to add). */
  datatype Patched = Doc(doc: Json) | ParseError | Panic

  function WithSigs(topo: map<string, Json>, sigs: Json): Json {
    Obj(topo["sigs" := sigs])
  }

  /** The value of `sigs` the code works on: an absent field counts as an empty object. */
  function RawSigs(topo: map<string, Json>): Json {
    if "sigs" in topo then topo["sigs"] else Obj(map[])
  }

  function Patch(doc: Json, desired: map<string, SIG>, prefix: string): Patched {
    match doc
    case Obj(topo) =>
      (match RawSigs(topo)
       case Obj(sigs) => Doc(WithSigs(topo, Obj(Replace(sigs, desired, prefix))))
       case Null => if desired == map[] then Doc(WithSigs(topo, Null)) else Panic
       case _ => ParseError)
    case Null => Panic
    case _ => ParseError
  }

  lemma WithSigsTwice(topo: map<string, Json>, x: Json, y: Json)
    ensures WithSigs(WithSigs(topo, x).fields, y) == WithSigs(topo, y)
    ensures RawSigs(WithSigs(topo, x).fields) == x
  {
    assert topo["sigs" := x]["sigs" := y] == topo["sigs" := y];
  }

  /** The sigs map of a document; absent and null count as empty. */
  function SigsOf(doc: Json): map<string, Json> {
    if doc.Obj? && "sigs" in doc.fields && doc.fields["sigs"].Obj? then doc.fields["sigs"].fields else map[]
  }

  predicate AllDecode(sigs: map<string, Json>) {
    forall n | n in sigs :: DecodeSig(sigs[n]).Some?
  }

  function Stripped(sigs: map<string, Json>, prefix: string): map<string, SIG>
    requires AllDecode(sigs)
  {
    map k | k in (set n | n in sigs && HasPrefix(n, prefix) :: n[|prefix|..]) && prefix + k in sigs :: DecodeSig(sigs[prefix + k]).value
  }

  /** What `ManagedSigs` returns: `None` for a document it cannot decode. */
  function ManagedSigs(doc: Json, prefix: string): Option<map<string, SIG>> {
    if !(doc.Obj? || doc.Null?) then None
    else if doc.Obj? && "sigs" in doc.fields && !doc.fields["sigs"].Obj? && !doc.fields["sigs"].Null? then None
    else if !AllDecode(SigsOf(doc)) then None
    else Some(Stripped(SigsOf(doc), prefix))
  }

  // ---- The code ----

  /** The first loop of `PatchSigs`: drop every managed entry. */
  method DropManaged(sigs: map<string, Json>, prefix: string) returns (out: map<string, Json>)
    ensures out == Unmanaged(sigs, prefix)
  {
    out := sigs;
    var names := sigs.Keys;
    while names != {}
      invariant names <= sigs.Keys
      invariant forall n :: n in out <==> n in sigs && (n in names || !HasPrefix(n, prefix))
      invariant forall n | n in out :: out[n] == sigs[n]
      decreases names
    {
      var name :| name in names;
      names := names - {name};
      if HasPrefix(name, prefix) {
        out := out - {name};
      }
    }
  }

  ghost predicate Agrees(part: map<string, SIG>, whole: map<string, SIG>) {
    forall n | n in part :: n in whole && part[n] == whole[n]
  }

  lemma AgreesMore(part: map<string, SIG>, whole: map<string, SIG>, name: string)
    requires Agrees(part, whole) && name in whole
    ensures Agrees(part[name := whole[name]], whole)
  {
  }

  lemma AgreesAll(part: map<string, SIG>, whole: map<string, SIG>)
    requires Agrees(part, whole) && part.Keys == whole.Keys
    ensures part == whole
  {
  }

  /** The second loop: add every desired entry under its prefixed name. */
  method AddDesired(kept: map<string, Json>, desired: map<string, SIG>, prefix: string) returns (out: map<string, Json>)
    ensures out == kept + Entries(desired, prefix)
  {
    out := kept;
    var todo := desired.Keys;
    ghost var done: map<string, SIG> := map[];
    AddNothing(kept, prefix);
    while todo != {}
      invariant todo <= desired.Keys
      invariant done.Keys == desired.Keys - todo && Agrees(done, desired)
      invariant out == kept + Entries(done, prefix)
      decreases todo
    {
      var name :| name in todo;
      AddStep(kept, done, name, desired[name], prefix);
      out := out[prefix + name := EncodeSig(desired[name])];
      AgreesMore(done, desired, name);
      todo, done := todo - {name}, done[name := desired[name]];
    }
    AgreesAll(done, desired);
  }

  lemma StrippedMeaning(sigs: map<string, Json>, prefix: string, k: string)
    requires AllDecode(sigs)
    ensures k in Stripped(sigs, prefix) <==> prefix + k in sigs
  {
    assert (prefix + k)[|prefix|..] == k;
  }

  /** The loop of `ManagedSigs`: collect the managed entries under their stripped names. */
  method CollectManaged(sigs: map<string, Json>, prefix: string) returns (out: map<string, SIG>)
    requires AllDecode(sigs)
    ensures out == Stripped(sigs, prefix)
  {
    out := map[];
    var names := sigs.Keys;
    while names != {}
      invariant names <= sigs.Keys
      invariant forall k :: k in out <==> prefix + k in sigs && prefix + k !in names
      invariant forall k | k in out :: out[k] == DecodeSig(sigs[prefix + k]).value
      decreases names
    {
      var name :| name in names;
      names := names - {name};
      if HasPrefix(name, prefix) {
        assert name == prefix + name[|prefix|..];
        SamePrefix(prefix, name[|prefix|..]);
        out := out[name[|prefix|..] := DecodeSig(sigs[name]).value];
      } else {
        assert forall k :: prefix + k != name;
      }
    }
    forall k ensures k in out <==> k in Stripped(sigs, prefix) {
      StrippedMeaning(sigs, prefix, k);
    }
  }

  lemma SamePrefix(prefix: string, name: string)
    ensures forall k :: prefix + k == prefix + name ==> k == name
  {
    forall k | prefix + k == prefix + name ensures k == name {
      assert (prefix + k)[|prefix|..] == k && (prefix + name)[|prefix|..] == name;
    }
  }

  lemma AddNothing(kept: map<string, Json>, prefix: string)
    ensures kept + Entries(map[], prefix) == kept
  {
    assert Entries(map[], prefix) == map[];
  }

  lemma AddStep(kept: map<string, Json>, done: map<string, SIG>, name: string, sig: SIG, prefix: string)
    ensures kept + Entries(done[name := sig], prefix) == (kept + Entries(done, prefix))[prefix + name := EncodeSig(sig)]
  {
    EntriesAdd(done, name, sig, prefix);
    UnionUpdate(kept, Entries(done, prefix), prefix + name, EncodeSig(sig));
  }

  lemma UnionUpdate(m: map<string, Json>, e: map<string, Json>, k: string, v: Json)
    ensures (m + e)[k := v] == m + e[k := v]
  {
  }

  /** `Entries`, name by name. */
  lemma EntriesAt(desired: map<string, SIG>, prefix: string, n: string)
    ensures At(Entries(desired, prefix), n)
         == if HasPrefix(n, prefix) && n[|prefix|..] in desired then Some(EncodeSig(desired[n[|prefix|..]])) else None
  {
    EntriesMeaning(desired, prefix);
  }

  lemma PrefixedIs(prefix: string, name: string, n: string)
    ensures HasPrefix(n, prefix) && n[|prefix|..] == name <==> n == prefix + name
  {
    if HasPrefix(n, prefix) { assert n == prefix + n[|prefix|..]; }
  }

  lemma EntriesAdd(done: map<string, SIG>, name: string, sig: SIG, prefix: string)
    ensures Entries(done[name := sig], prefix) == Entries(done, prefix)[prefix + name := EncodeSig(sig)]
  {
    var x, y := Entries(done[name := sig], prefix), Entries(done, prefix)[prefix + name := EncodeSig(sig)];
    forall n ensures At(x, n) == At(y, n) {
      EntriesAt(done[name := sig], prefix, n);
      EntriesAt(done, prefix, n);
      PrefixedIs(prefix, name, n);
    }
    SameEverywhere(x, y);
  }

  method PatchSigs(doc: Json, desired: map<string, SIG>, prefix: string) returns (r: Patched)
    ensures r == Patch(doc, desired, prefix)
  {
    match doc {
      case Obj(topo) =>
        match RawSigs(topo) {
          case Obj(sigs) =>
            var kept := DropManaged(sigs, prefix);
            var out := AddDesired(kept, desired, prefix);
            r := Doc(WithSigs(topo, Obj(out)));
          case Null =>
            r := if desired == map[] then Doc(WithSigs(topo, Null)) else Panic;
          case _ =>
            r := ParseError;
        }
      case Null =>
        r := Panic;
      case _ =>
        r := ParseError;
    }
  }

  /** Names in `Entries` are exactly the prefixed desired names. */
  lemma EntriesMeaning(desired: map<string, SIG>, prefix: string)
    ensures forall n :: n in Entries(desired, prefix) <==> HasPrefix(n, prefix) && n[|prefix|..] in desired
    ensures forall n | n in Entries(desired, prefix) :: Entries(desired, prefix)[n] == EncodeSig(desired[n[|prefix|..]])
  {
    forall n | HasPrefix(n, prefix) && n[|prefix|..] in desired ensures n in Entries(desired, prefix) {
      assert n == prefix + n[|prefix|..];
    }
    forall n | n in Entries(desired, prefix) ensures HasPrefix(n, prefix) {
      var name :| name in desired && n == prefix + name;
    }
  }

  function At(m: map<string, Json>, n: string): Option<Json> {
    if n in m then Some(m[n]) else None
  }

  /** A patched map, name by name. */
  lemma ReplaceAt(sigs: map<string, Json>, desired: map<string, SIG>, prefix: string, n: string)
    ensures At(Replace(sigs, desired, prefix), n)
         == if !HasPrefix(n, prefix) then At(sigs, n)
            else if n[|prefix|..] in desired then Some(EncodeSig(desired[n[|prefix|..]])) else None
  {
    EntriesMeaning(desired, prefix);
  }

  lemma SameEverywhere(s: map<string, Json>, t: map<string, Json>)
    requires forall n :: At(s, n) == At(t, n)
    ensures s == t
  {
    forall n ensures n in s <==> n in t {
      assert At(s, n) == At(t, n);
    }
    forall n | n in s ensures s[n] == t[n] {
      assert At(s, n) == At(t, n);
    }
  }

  lemma SigRoundTrip(sig: SIG)
    ensures DecodeSig(EncodeSig(sig)) == Some(sig)
  {
  }

  // ---- Laws of the sigs map ----

  lemma ReplaceMeaning(sigs: map<string, Json>, desired: map<string, SIG>, prefix: string)
    ensures Unmanaged(Replace(sigs, desired, prefix), prefix) == Unmanaged(sigs, prefix)
  {
    var r := Replace(sigs, desired, prefix);
    forall n ensures At(Unmanaged(r, prefix), n) == At(Unmanaged(sigs, prefix), n) {
      ReplaceAt(sigs, desired, prefix, n);
      assert At(r, n) == At(sigs, n) || HasPrefix(n, prefix);
    }
    SameEverywhere(Unmanaged(r, prefix), Unmanaged(sigs, prefix));
  }

  lemma ReplaceAbsorbs(sigs: map<string, Json>, d1: map<string, SIG>, d2: map<string, SIG>, prefix: string)
    ensures Replace(Replace(sigs, d1, prefix), d2, prefix) == Replace(sigs, d2, prefix)
  {
    ReplaceMeaning(sigs, d1, prefix);
  }

  predicate Independent(p: string, q: string) { !(p <= q) && !(q <= p) }

  /** Two prefixes of one string are comparable. */
  lemma PrefixesComparable(p: string, q: string, n: string)
    requires p <= n && q <= n
    ensures p <= q || q <= p
  {
    if |p| <= |q| { assert p == n[..|p|] == q[..|p|]; } else { assert q == n[..|q|] == p[..|q|]; }
  }

  lemma ReplaceOther(sigs: map<string, Json>, desired: map<string, SIG>, p: string, q: string)
    requires Independent(p, q)
    ensures Managed(Replace(sigs, desired, p), q) == Managed(sigs, q)
  {
    var r := Replace(sigs, desired, p);
    forall n ensures At(Managed(r, q), n) == At(Managed(sigs, q), n) {
      if HasPrefix(n, p) && HasPrefix(n, q) { PrefixesComparable(p, q, n); }
      ReplaceAt(sigs, desired, p, n);
      assert At(r, n) == At(sigs, n) || !HasPrefix(n, q);
    }
    SameEverywhere(Managed(r, q), Managed(sigs, q));
  }

  lemma ReplaceCommutes(sigs: map<string, Json>, dp: map<string, SIG>, dq: map<string, SIG>, p: string, q: string)
    requires Independent(p, q)
    ensures Replace(Replace(sigs, dp, p), dq, q) == Replace(Replace(sigs, dq, q), dp, p)
  {
    forall n ensures At(Replace(Replace(sigs, dp, p), dq, q), n) == At(Replace(Replace(sigs, dq, q), dp, p), n) {
      if HasPrefix(n, p) && HasPrefix(n, q) { PrefixesComparable(p, q, n); }
      ReplaceAt(Replace(sigs, dp, p), dq, q, n);
      ReplaceAt(sigs, dp, p, n);
      ReplaceAt(Replace(sigs, dq, q), dp, p, n);
      ReplaceAt(sigs, dq, q, n);
    }
    SameEverywhere(Replace(Replace(sigs, dp, p), dq, q), Replace(Replace(sigs, dq, q), dp, p));
  }

  // ---- Laws of documents ----

  /** Reading after a successful patch gives exactly the desired map, unless an unmanaged
      entry does not decode, in which case reading fails. */
  lemma GetAfterPut(doc: Json, desired: map<string, SIG>, prefix: string)
    requires Patch(doc, desired, prefix).Doc?
    ensures ManagedSigs(Patch(doc, desired, prefix).doc, prefix)
         == if AllDecode(Unmanaged(SigsOf(doc), prefix)) then Some(desired) else None
  {
    var d := Patch(doc, desired, prefix).doc;
    var before, after := SigsOf(doc), SigsOf(d);
    if d.fields["sigs"].Null? {
      assert Stripped(map[], prefix) == map[];
    } else {
      assert after == Replace(before, desired, prefix);
      ReplaceDecodes(before, desired, prefix);
      if AllDecode(after) { StrippedReplace(before, desired, prefix); }
    }
  }

  lemma ReplaceDecodes(sigs: map<string, Json>, desired: map<string, SIG>, prefix: string)
    ensures AllDecode(Replace(sigs, desired, prefix)) <==> AllDecode(Unmanaged(sigs, prefix))
  {
    EntriesMeaning(desired, prefix);
    var r, u := Replace(sigs, desired, prefix), Unmanaged(sigs, prefix);
    forall n | n in u ensures n in r && r[n] == u[n] {
    }
  }

  lemma StrippedReplace(sigs: map<string, Json>, desired: map<string, SIG>, prefix: string)
    requires AllDecode(Replace(sigs, desired, prefix))
    ensures Stripped(Replace(sigs, desired, prefix), prefix) == desired
  {
    EntriesMeaning(desired, prefix);
    var r := Replace(sigs, desired, prefix);
    var s := Stripped(r, prefix);
    forall k ensures k in s <==> k in desired {
      assert (prefix + k)[|prefix|..] == k;
      if k in desired { assert prefix + k in r; }
    }
    forall k | k in s ensures s[k] == desired[k] {
      assert (prefix + k)[|prefix|..] == k;
      SigRoundTrip(desired[k]);
    }
  }

  /** What stands in the file for a desired name: its two addresses under their field names. */
  lemma PatchWrites(doc: Json, desired: map<string, SIG>, prefix: string, name: string)
    requires Patch(doc, desired, prefix).Doc? && name in desired
    ensures var sigs := SigsOf(Patch(doc, desired, prefix).doc);
            && prefix + name in sigs && sigs[prefix + name].Obj?
            && sigs[prefix + name].fields == map["ctrl_addr" := Str(desired[name].ctrlAddr), "data_addr" := Str(desired[name].dataAddr)]
  {
    var n := prefix + name;
    assert HasPrefix(n, prefix) && n[|prefix|..] == name;
    ReplaceAt(SigsOf(doc), desired, prefix, n);
  }

  /** When a patch goes through, when the document is refused, and when it hits a nil map. */
  lemma PatchOutcome(doc: Json, desired: map<string, SIG>, prefix: string)
    ensures Patch(doc, desired, prefix).Doc? <==>
              doc.Obj? && ("sigs" !in doc.fields || doc.fields["sigs"].Obj? || (doc.fields["sigs"].Null? && desired == map[]))
    ensures Patch(doc, desired, prefix).Panic? <==>
              doc.Null? || (doc.Obj? && "sigs" in doc.fields && doc.fields["sigs"].Null? && desired != map[])
  {
  }

  /** What is read from any document: the managed entries under their stripped names, with
      absent and null fields as empty strings; it fails exactly on a value of the wrong kind. */
  lemma ManagedSigsMeaning(doc: Json, prefix: string, k: string)
    ensures ManagedSigs(doc, prefix).Some? <==>
              || doc.Null?
              || (doc.Obj? && ("sigs" !in doc.fields || doc.fields["sigs"].Null?))
              || (doc.Obj? && doc.fields["sigs"].Obj? && forall n | n in doc.fields["sigs"].fields :: Decodes(doc.fields["sigs"].fields[n]))
    ensures ManagedSigs(doc, prefix).Some? ==>
              var m, sigs := ManagedSigs(doc, prefix).value, SigsOf(doc);
              && (k in m <==> prefix + k in sigs)
              && (k in m ==> m[k] == SIG(FieldText(sigs[prefix + k], "ctrl_addr"), FieldText(sigs[prefix + k], "data_addr")))
  {
    if ManagedSigs(doc, prefix).Some? { StrippedMeaning(SigsOf(doc), prefix, k); }
  }

  /** The value has the kind of a SIG entry: null, or an object whose two fields are strings,
      null or absent. */
  predicate Decodes(j: Json) {
    || j.Null?
    || (j.Obj? && forall key | key in {"ctrl_addr", "data_addr"} && key in j.fields :: j.fields[key].Null? || j.fields[key].Str?)
  }

  /** The text of a field, empty if there is none. */
  function FieldText(j: Json, key: string): string {
    if j.Obj? && key in j.fields && j.fields[key].Str? then j.fields[key].s else ""
  }

  /** A later patch absorbs an earlier one. */
  lemma PatchAbsorbs(doc: Json, d1: map<string, SIG>, d2: map<string, SIG>, prefix: string)
    requires Patch(doc, d1, prefix).Doc?
    ensures Patch(Patch(doc, d1, prefix).doc, d2, prefix) == Patch(doc, d2, prefix)
  {
    var topo := doc.fields;
    match RawSigs(topo)
    case Obj(sigs) =>
      WithSigsTwice(topo, Obj(Replace(sigs, d1, prefix)), Obj(Replace(sigs, d2, prefix)));
      ReplaceAbsorbs(sigs, d1, d2, prefix);
    case Null =>
      WithSigsTwice(topo, Null, Null);
  }

  function OtherFields(doc: Json): map<string, Json> {
    if doc.Obj? then doc.fields - {"sigs"} else map[]
  }

  /** Patches with any bodies, one after the other; failed ones leave the document. */
  function PatchAll(doc: Json, bodies: seq<map<string, SIG>>, prefix: string): Json
    decreases |bodies|
  {
    if bodies == [] then doc
    else
      var r := Patch(doc, bodies[0], prefix);
      PatchAll(if r.Doc? then r.doc else doc, bodies[1..], prefix)
  }

  lemma PatchConserves(doc: Json, body: map<string, SIG>, prefix: string)
    requires Patch(doc, body, prefix).Doc?
    ensures OtherFields(Patch(doc, body, prefix).doc) == OtherFields(doc)
    ensures Unmanaged(SigsOf(Patch(doc, body, prefix).doc), prefix) == Unmanaged(SigsOf(doc), prefix)
  {
    var topo := doc.fields;
    if RawSigs(topo).Obj? {
      var sigs := RawSigs(topo).fields;
      ReplaceMeaning(sigs, body, prefix);
      WithSigsKeeps(topo, Obj(Replace(sigs, body, prefix)));
    } else {
      WithSigsKeeps(topo, Null);
    }
  }

  lemma WithSigsKeeps(topo: map<string, Json>, sigs: Json)
    ensures OtherFields(WithSigs(topo, sigs)) == topo - {"sigs"}
    ensures SigsOf(WithSigs(topo, sigs)) == if sigs.Obj? then sigs.fields else map[]
  {
  }

  /** Unmanaged entries and all other fields survive any sequence of patches. */
  lemma {:induction false} PatchesConserve(doc: Json, bodies: seq<map<string, SIG>>, prefix: string)
    ensures OtherFields(PatchAll(doc, bodies, prefix)) == OtherFields(doc)
    ensures Unmanaged(SigsOf(PatchAll(doc, bodies, prefix)), prefix) == Unmanaged(SigsOf(doc), prefix)
    decreases |bodies|
  {
    if bodies != [] {
      var r := Patch(doc, bodies[0], prefix);
      if r.Doc? {
        PatchConserves(doc, bodies[0], prefix);
        PatchesConserve(r.doc, bodies[1..], prefix);
      } else {
        PatchesConserve(doc, bodies[1..], prefix);
      }
    }
  }

  /** Any sequence of patches amounts to its last successful one. */
  lemma {:induction false} PatchesCollapse(doc: Json, bodies: seq<map<string, SIG>>, prefix: string)
    ensures PatchAll(doc, bodies, prefix) == doc
         || exists i :: 0 <= i < |bodies| && Patch(doc, bodies[i], prefix) == Doc(PatchAll(doc, bodies, prefix))
    decreases |bodies|
  {
    if bodies != [] {
      var r := Patch(doc, bodies[0], prefix);
      var next := if r.Doc? then r.doc else doc;
      PatchesCollapse(next, bodies[1..], prefix);
      if i :| 0 <= i < |bodies[1..]| && Patch(next, bodies[1..][i], prefix) == Doc(PatchAll(next, bodies[1..], prefix)) {
        if r.Doc? { PatchAbsorbs(doc, bodies[0], bodies[i + 1], prefix); }
        assert bodies[i + 1] == bodies[1..][i];
      }
    }
  }

  ghost predicate Undisturbed(p: string, q: string) {
    forall doc, desired :: Patch(doc, desired, p).Doc? ==> Managed(SigsOf(Patch(doc, desired, p).doc), q) == Managed(SigsOf(doc), q)
  }

  /** Patches under one prefix leave the entries of another alone, for all documents,
      exactly when neither prefix is a prefix of the other. */
  lemma IndependentIff(p: string, q: string)
    ensures Undisturbed(p, q) <==> Independent(p, q)
  {
    if Independent(p, q) {
      forall doc, desired | Patch(doc, desired, p).Doc?
        ensures Managed(SigsOf(Patch(doc, desired, p).doc), q) == Managed(SigsOf(doc), q)
      {
        ReplaceOther(SigsOf(doc), desired, p, q);
      }
    } else if p <= q {
      DisturbsLonger(p, q);
    } else {
      DisturbsShorter(p, q);
    }
  }

  lemma DisturbsLonger(p: string, q: string)
    requires p <= q
    ensures !Undisturbed(p, q)
  {
    var sigs := map[q := Null];
    var doc := WithSigs(map[], Obj(sigs));
    ReplaceAt(sigs, map[], p, q);
    WithSigsKeeps(map[], Obj(sigs));
    WithSigsKeeps(doc.fields, Obj(Replace(sigs, map[], p)));
    assert Patch(doc, map[], p) == Doc(WithSigs(doc.fields, Obj(Replace(sigs, map[], p))));
    assert q in Managed(sigs, q) && q !in Managed(Replace(sigs, map[], p), q);
  }

  lemma DisturbsShorter(p: string, q: string)
    requires q <= p
    ensures !Undisturbed(p, q)
  {
    var doc, desired := Obj(map[]), map["" := SIG("", "")];
    ReplaceAt(map[], desired, p, p);
    assert p[|p|..] == "";
    assert p !in Managed(SigsOf(doc), q);
    assert p in Managed(SigsOf(Patch(doc, desired, p).doc), q);
  }

  /** Successful patches under independent prefixes commute. */
  lemma PatchesCommute(doc: Json, dp: map<string, SIG>, dq: map<string, SIG>, p: string, q: string)
    requires Independent(p, q) && Patch(doc, dp, p).Doc? && Patch(doc, dq, q).Doc?
    ensures Patch(Patch(doc, dp, p).doc, dq, q) == Patch(Patch(doc, dq, q).doc, dp, p)
  {
    var topo := doc.fields;
    if RawSigs(topo).Obj? {
      PatchTwice(topo, RawSigs(topo).fields, dp, p, dq, q);
      PatchTwice(topo, RawSigs(topo).fields, dq, q, dp, p);
      ReplaceCommutes(RawSigs(topo).fields, dp, dq, p, q);
    }
  }

  lemma PatchTwice(topo: map<string, Json>, sigs: map<string, Json>, dp: map<string, SIG>, p: string, dq: map<string, SIG>, q: string)
    requires RawSigs(topo) == Obj(sigs)
    ensures Patch(Patch(Obj(topo), dp, p).doc, dq, q) == Doc(WithSigs(topo, Obj(Replace(Replace(sigs, dp, p), dq, q))))
  {
    WithSigsTwice(topo, Obj(Replace(sigs, dp, p)), Obj(Replace(Replace(sigs, dp, p), dq, q)));
  }
}
