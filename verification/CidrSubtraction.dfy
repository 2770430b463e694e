/** `subtractCIDRs` on text: parsing, the recursive closure that appends to a
    captured slice, and the final sort. */
module CidrSubtraction {
  import opened Wrappers
  import opened Prefixes
  import opened Subtract
  import opened UpperHalf
  import opened Runs
  import Order

  ghost predicate AllParse(cidrs: seq<string>) {
    forall i | 0 <= i < |cidrs| :: ParsePrefix(cidrs[i]).Some?
  }

  /** The parsed list, each entry masked. */
  function Blocks(cidrs: seq<string>): (r: seq<Prefix>)
    requires AllParse(cidrs)
    ensures |r| == |cidrs| && AllAligned(r)
    ensures forall i | 0 <= i < |cidrs| :: r[i] == ParsePrefix(cidrs[i]).value.Masked()
  {
    if cidrs == [] then []
    else
      MaskedAligned(ParsePrefix(cidrs[0]).value);
      [ParsePrefix(cidrs[0]).value.Masked()] + Blocks(cidrs[1..])
  }

  lemma {:induction false} BlocksConcat(a: seq<string>, b: seq<string>)
    requires AllParse(a) && AllParse(b)
    ensures AllParse(a + b) && Blocks(a + b) == Blocks(a) + Blocks(b)
  {
    assert AllParse(a + b);
    if a == [] {
      assert a + b == b;
    } else {
      assert (a + b)[1..] == a[1..] + b;
      BlocksConcat(a[1..], b);
      Append3([ParsePrefix(a[0]).value.Masked()], Blocks(a[1..]), Blocks(b));
    }
  }

  lemma BlocksSnoc(cidrs: seq<string>, i: nat)
    requires i < |cidrs| && AllParse(cidrs[..i]) && ParsePrefix(cidrs[i]).Some?
    ensures AllParse(cidrs[..i + 1])
    ensures Blocks(cidrs[..i + 1]) == Blocks(cidrs[..i]) + [ParsePrefix(cidrs[i]).value.Masked()]
  {
    assert cidrs[..i + 1] == cidrs[..i] + [cidrs[i]];
    BlocksConcat(cidrs[..i], [cidrs[i]]);
  }

  function Texts(ps: seq<Prefix>): (r: seq<string>)
    ensures |r| == |ps| && forall i | 0 <= i < |ps| :: r[i] == FormatPrefix(ps[i])
  {
    if ps == [] then [] else [FormatPrefix(ps[0])] + Texts(ps[1..])
  }

  lemma {:induction false} TextsConcat(a: seq<Prefix>, b: seq<Prefix>)
    ensures Texts(a + b) == Texts(a) + Texts(b)
  {
    if a == [] {
      assert a + b == b;
    } else {
      assert (a + b)[1..] == a[1..] + b;
      TextsConcat(a[1..], b);
      Append3([FormatPrefix(a[0])], Texts(a[1..]), Texts(b));
    }
  }

  lemma CoveredTexts(out: seq<string>, p: Prefix, ex: seq<Prefix>)
    requires p.Aligned() && AllAligned(ex) && Covered(p, ex)
    ensures out == out + Texts(Walk(p, ex)) && Calls(p, ex) == 1
  {
  }

  lemma FreeTexts(out: seq<string>, p: Prefix, ex: seq<Prefix>)
    requires p.Aligned() && AllAligned(ex) && !Covered(p, ex) && !Touched(p, ex)
    ensures out + [FormatPrefix(p)] == out + Texts(Walk(p, ex)) && Calls(p, ex) == 1
  {
    assert Texts([p]) == [FormatPrefix(p)];
  }

  lemma SplitTexts(out: seq<string>, p: Prefix, ex: seq<Prefix>)
    requires p.Aligned() && AllAligned(ex) && p.bits < 32 && !Covered(p, ex) && Touched(p, ex)
    ensures p.Left().Aligned() && p.Right().Aligned()
    ensures out + Texts(Walk(p.Left(), ex)) + Texts(Walk(p.Right(), ex)) == out + Texts(Walk(p, ex))
    ensures Calls(p, ex) == 1 + Calls(p.Left(), ex) + Calls(p.Right(), ex)
  {
    assert p.Left().Aligned() && p.Right().Aligned() by { Halves(p); }
    var l, r := Walk(p.Left(), ex), Walk(p.Right(), ex);
    TextsConcat(l, r);
    Append3(out, Texts(l), Texts(r));
  }

  /** The result of `subtractCIDRs(base, excludes)` when everything parses. */
  function Difference(base: Prefix, excludes: seq<string>): seq<string>
    requires base.Valid() && AllParse(excludes)
  {
    MaskedAligned(base);
    Order.Sort(Texts(Walk(base.Masked(), Blocks(excludes))))
  }

  /** The closure `walk` with the variables it captures. */
  class Walker {
    const ex: seq<Prefix>
    var out: seq<string>
    ghost var calls: nat

    constructor (ex: seq<Prefix>)
      ensures this.ex == ex && out == [] && calls == 0
    {
      this.ex, out, calls := ex, [], 0;
    }

    /** The loop over the excludes: stops at the first one that covers `p`. */
    method Scan(p: Prefix) returns (covered: bool, overlap: bool)
      requires p.Aligned() && AllAligned(ex)
      ensures covered == Covered(p, ex)
      ensures !covered ==> overlap == Touched(p, ex)
    {
      covered, overlap := false, false;
      for i := 0 to |ex|
        invariant !covered
        invariant forall j | 0 <= j < i :: !(ex[j].bits <= p.bits && ex[j].Contains(p.addr))
        invariant overlap <==> exists j :: 0 <= j < i && p.Overlaps(ex[j])
      {
        if ex[i].bits <= p.bits && ex[i].Contains(p.addr) {
          covered := true;
          return;
        }
        if p.Overlaps(ex[i]) {
          overlap := true;
        }
      }
    }

    method WalkPrefix(p: Prefix)
      requires p.Aligned() && AllAligned(ex)
      modifies this
      ensures out == old(out) + Texts(Walk(p, ex))
      ensures calls == old(calls) + Calls(p, ex)
      decreases 32 - p.bits
    {
      calls := calls + 1;
      var covered, overlap := Scan(p);
      if covered {
        CoveredTexts(out, p, ex);
        return;
      }
      if !overlap {
        FreeTexts(out, p, ex);
        out := out + [FormatPrefix(p)];
        return;
      }
      if p.bits >= 32 {
        SplitHasInner(p, ex);
        return;
      }
      WalkHalves(p);
    }

    /** The two recursive calls. */
    method WalkHalves(p: Prefix)
      requires p.Aligned() && AllAligned(ex) && p.bits < 32 && !Covered(p, ex) && Touched(p, ex)
      modifies this
      ensures out == old(out) + Texts(Walk(p, ex))
      ensures calls + 1 == old(calls) + Calls(p, ex)
      decreases 32 - p.bits, 0
    {
      ghost var before := out;
      assert p.Left().Aligned() && p.Right().Aligned() by { Halves(p); }
      WalkPrefix(p.Left());
      var upper := UpperHalfAddr(p);
      var right := Prefix(upper, p.bits + 1);
      assert right == p.Right();
      WalkPrefix(right);
      SplitTexts(before, p, ex);
    }
  }

  method WalkAll(base: Prefix, ex: seq<Prefix>) returns (out: seq<string>)
    requires base.Aligned() && AllAligned(ex)
    ensures out == Texts(Walk(base, ex))
  {
    var w := new Walker(ex);
    w.WalkPrefix(base);
    out := w.out;
    assert [] + Texts(Walk(base, ex)) == Texts(Walk(base, ex));
  }

  method SubtractCIDRs(base: string, excludes: seq<string>) returns (r: Result<seq<string>, string>)
    ensures r.Ok? <==> ParsePrefix(base).Some? && AllParse(excludes)
    ensures r.Ok? ==> r.value == Difference(ParsePrefix(base).value, excludes)
  {
    var b := ParsePrefix(base);
    if b.None? {
      return Err(base);
    }
    MaskedAligned(b.value);
    var ex: seq<Prefix> := [];
    for i := 0 to |excludes|
      invariant AllParse(excludes[..i]) && ex == Blocks(excludes[..i])
    {
      var p := ParsePrefix(excludes[i]);
      if p.None? {
        return Err(excludes[i]);
      }
      BlocksSnoc(excludes, i);
      ex := ex + [p.value.Masked()];
    }
    assert excludes[..|excludes|] == excludes;
    var out := WalkAll(b.value.Masked(), ex);
    r := Ok(Order.Sort(out));
  }

  // ---- What the returned text means ----

  /** Membership in the returned list, read back through the parser. */
  lemma DifferenceMembers(base: Prefix, excludes: seq<string>, s: string)
    requires base.Valid() && AllParse(excludes) && base.Masked().Aligned()
    ensures s in Difference(base, excludes)
       <==> exists o :: o in Walk(base.Masked(), Blocks(excludes)) && s == FormatPrefix(o)
  {
    var w := Walk(base.Masked(), Blocks(excludes));
    Order.SortSameElements(Texts(w));
    if s in Texts(w) {
      var i :| 0 <= i < |w| && Texts(w)[i] == s;
      assert w[i] in w;
    }
    if o :| o in w && s == FormatPrefix(o) {
      var i :| 0 <= i < |w| && w[i] == o;
      assert Texts(w)[i] == s;
    }
  }

  lemma FormatInjective(p: Prefix, q: Prefix)
    requires p.Valid() && q.Valid() && FormatPrefix(p) == FormatPrefix(q)
    ensures p == q
  {
    PrefixRoundTrip(p);
    PrefixRoundTrip(q);
  }

  /** The list is strictly sorted and every entry parses. */
  lemma DifferenceSorted(base: Prefix, excludes: seq<string>)
    requires base.Valid() && AllParse(excludes)
    ensures Order.StrictlySorted(Difference(base, excludes))
    ensures AllParse(Difference(base, excludes))
  {
    MaskedAligned(base);
    var w := Walk(base.Masked(), Blocks(excludes));
    WalkAscending(base.Masked(), Blocks(excludes));
    DistinctTexts(w, base.Masked());
    Order.SortStrict(Texts(w));
    forall i | 0 <= i < |Difference(base, excludes)| ensures ParsePrefix(Difference(base, excludes)[i]).Some? {
      ReadBack(base, excludes, i);
    }
  }

  /** The walk on the masked base covers exactly the difference. */
  lemma MaskedWalkExact(base: Prefix, ex: seq<Prefix>, a: nat)
    requires base.Valid() && AllAligned(ex) && base.Masked().Aligned()
    ensures AllAligned(Walk(base.Masked(), ex))
    ensures InUnion(a, Walk(base.Masked(), ex)) <==> base.Contains(a) && !InUnion(a, ex)
  {
    WalkExact(base.Masked(), ex, a);
    MaskedContains(base, a);
  }

  /** An address is covered exactly when it is in the base and in no exclude. */
  lemma DifferenceExact(base: Prefix, excludes: seq<string>, a: nat)
    requires base.Valid() && AllParse(excludes)
    ensures AllParse(Difference(base, excludes))
    ensures InUnion(a, Blocks(Difference(base, excludes))) <==> base.Contains(a) && !InUnion(a, Blocks(excludes))
  {
    assert base.Masked().Aligned() by { MaskedAligned(base); }
    assert AllParse(Difference(base, excludes)) by { DifferenceSorted(base, excludes); }
    MaskedWalkExact(base, Blocks(excludes), a);
    SameUnion(base, excludes, a);
  }

  lemma AscendingDistinct(w: seq<Prefix>, p: Prefix, i: nat, j: nat)
    requires AllAligned(w) && p.Aligned() && Ascending(w, p) && i < j < |w|
    ensures w[i] != w[j] && w[i].Valid() && w[j].Valid()
  {
  }

  lemma DistinctTexts(w: seq<Prefix>, p: Prefix)
    requires AllAligned(w) && p.Aligned() && Ascending(w, p)
    ensures Order.NoDuplicates(Texts(w))
  {
    var t := Texts(w);
    forall i, j | 0 <= i < j < |t| ensures t[i] != t[j] {
      AscendingDistinct(w, p, i, j);
      FormatDistinct(w[i], w[j]);
    }
  }

  lemma FormatDistinct(p: Prefix, q: Prefix)
    requires p.Valid() && q.Valid() && p != q
    ensures FormatPrefix(p) != FormatPrefix(q)
  {
    if FormatPrefix(p) == FormatPrefix(q) { FormatInjective(p, q); }
  }

  lemma SameUnion(base: Prefix, excludes: seq<string>, a: nat)
    requires base.Valid() && AllParse(excludes) && base.Masked().Aligned()
    requires AllParse(Difference(base, excludes)) && AllAligned(Walk(base.Masked(), Blocks(excludes)))
    ensures InUnion(a, Blocks(Difference(base, excludes))) <==> InUnion(a, Walk(base.Masked(), Blocks(excludes)))
  {
    var w, d := Walk(base.Masked(), Blocks(excludes)), Difference(base, excludes);
    forall i | 0 <= i < |d| ensures Blocks(d)[i] in w {
      ReadBack(base, excludes, i);
    }
    forall i | 0 <= i < |w| ensures w[i] in Blocks(d) {
      DifferenceMembers(base, excludes, FormatPrefix(w[i]));
      var k :| 0 <= k < |d| && d[k] == FormatPrefix(w[i]);
      PrefixRoundTrip(w[i]);
      assert Blocks(d)[k] == w[i];
    }
    SameMembers(Blocks(d), w, a);
  }

  /** Entry `i` of the result parses to a prefix of the walk. */
  lemma ReadBack(base: Prefix, excludes: seq<string>, i: nat)
    requires base.Valid() && AllParse(excludes) && base.Masked().Aligned() && i < |Difference(base, excludes)|
    requires AllAligned(Walk(base.Masked(), Blocks(excludes)))
    ensures var p := ParsePrefix(Difference(base, excludes)[i]);
            p.Some? && p.value.Aligned() && p.value in Walk(base.Masked(), Blocks(excludes))
  {
    var w, s := Walk(base.Masked(), Blocks(excludes)), Difference(base, excludes)[i];
    DifferenceMembers(base, excludes, s);
    var o :| o in w && s == FormatPrefix(o);
    PrefixRoundTrip(o);
  }

  lemma SameMembers(x: seq<Prefix>, y: seq<Prefix>, a: nat)
    requires AllAligned(x) && AllAligned(y)
    requires forall i | 0 <= i < |x| :: x[i] in y
    requires forall i | 0 <= i < |y| :: y[i] in x
    ensures InUnion(a, x) <==> InUnion(a, y)
  {
    if i :| 0 <= i < |x| && x[i].Contains(a) { assert x[i] in y; }
    if i :| 0 <= i < |y| && y[i].Contains(a) { assert y[i] in x; }
  }

  /** Exclude lists with the same union give the identical list of strings. */
  lemma DifferenceCanonical(base: Prefix, ex1: seq<string>, ex2: seq<string>)
    requires base.Valid() && AllParse(ex1) && AllParse(ex2)
    requires forall a: nat | base.Contains(a) :: InUnion(a, Blocks(ex1)) <==> InUnion(a, Blocks(ex2))
    ensures Difference(base, ex1) == Difference(base, ex2)
  {
    assert base.Masked().Aligned() by { MaskedAligned(base); }
    forall a: nat | base.Masked().Contains(a) ensures InUnion(a, Blocks(ex1)) <==> InUnion(a, Blocks(ex2)) {
      MaskedContains(base, a);
    }
    WalkCanonical(base.Masked(), Blocks(ex1), Blocks(ex2));
  }

  /** The returned list names exactly the maximal free aligned prefixes. */
  lemma DifferenceIsMaximalSet(base: Prefix, excludes: seq<string>, q: Prefix)
    requires base.Valid() && AllParse(excludes) && base.Masked().Aligned() && q.Valid()
    ensures FormatPrefix(q) in Difference(base, excludes) <==> Maximal(q, base.Masked(), Blocks(excludes))
  {
    var w := Walk(base.Masked(), Blocks(excludes));
    WalkIsMaximalSet(base.Masked(), Blocks(excludes), q);
    DifferenceMembers(base, excludes, FormatPrefix(q));
    WalkAscending(base.Masked(), Blocks(excludes));
    if o :| o in w && FormatPrefix(q) == FormatPrefix(o) {
      FormatInjective(q, o);
    }
  }

  /** No set of aligned prefixes that covers exactly the difference is smaller than the
      returned list. */
  lemma DifferenceMinimal(base: Prefix, excludes: seq<string>, cover: set<Prefix>)
    requires base.Valid() && AllParse(excludes) && base.Masked().Aligned()
    requires ExactCover(cover, base.Masked(), Blocks(excludes))
    ensures |Difference(base, excludes)| <= |cover|
  {
    WalkMinimal(base.Masked(), Blocks(excludes), cover);
    Order.SortSameElements(Texts(Walk(base.Masked(), Blocks(excludes))));
  }
}
