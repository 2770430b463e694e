/** `subtractCIDRs`: a base prefix minus a list of excluded prefixes, by recursive
    halving, and what the result is: exact, disjoint, canonical and minimal. */
module Subtract {
  import opened Prefixes

  ghost predicate AllAligned(ps: seq<Prefix>) {
    forall i | 0 <= i < |ps| :: ps[i].Aligned()
  }

  /** Some prefix of the list contains address `a`. */
  ghost predicate InUnion(a: nat, ps: seq<Prefix>)
    requires AllAligned(ps)
  {
    exists i :: 0 <= i < |ps| && ps[i].Contains(a)
  }

  lemma InUnionConcat(a: nat, l: seq<Prefix>, r: seq<Prefix>)
    requires AllAligned(l) && AllAligned(r)
    ensures InUnion(a, l + r) <==> InUnion(a, l) || InUnion(a, r)
  {
    if i :| 0 <= i < |l| && l[i].Contains(a) { assert (l + r)[i].Contains(a); }
    if i :| 0 <= i < |r| && r[i].Contains(a) { assert (l + r)[|l| + i].Contains(a); }
  }

  /** One exclude is at least as wide as `p` and contains its base address. */
  predicate Covered(p: Prefix, ex: seq<Prefix>)
    requires AllAligned(ex)
  {
    exists i :: 0 <= i < |ex| && ex[i].bits <= p.bits && ex[i].Contains(p.addr)
  }

  predicate Touched(p: Prefix, ex: seq<Prefix>)
    requires p.Aligned() && AllAligned(ex)
  {
    exists i :: 0 <= i < |ex| && p.Overlaps(ex[i])
  }

  /** What `walk(p)` appends to the output, before it is turned into text. */
  function Walk(p: Prefix, ex: seq<Prefix>): seq<Prefix>
    requires p.Aligned() && AllAligned(ex)
    decreases 32 - p.bits
  {
    if Covered(p, ex) then []
    else if !Touched(p, ex) then [p]
    else if p.bits >= 32 then []
    else
      Halves(p);
      Walk(p.Left(), ex) + Walk(p.Right(), ex)
  }

  /** The number of `walk` calls made by `walk(p)`, itself included. */
  function Calls(p: Prefix, ex: seq<Prefix>): nat
    requires p.Aligned() && AllAligned(ex)
    decreases 32 - p.bits
  {
    if Covered(p, ex) || !Touched(p, ex) || p.bits >= 32 then 1
    else
      Halves(p);
      1 + Calls(p.Left(), ex) + Calls(p.Right(), ex)
  }

  // ---- The three outcomes of one call ----

  ghost predicate AllExcluded(p: Prefix, ex: seq<Prefix>)
    requires p.Aligned() && AllAligned(ex)
  {
    forall a | p.Contains(a) :: InUnion(a, ex)
  }

  /** `p` is aligned and shares no address with an exclude. */
  ghost predicate Free(p: Prefix, ex: seq<Prefix>)
    requires AllAligned(ex)
  {
    p.Aligned() && forall a | p.Contains(a) :: !InUnion(a, ex)
  }

  lemma CoveredMeansAll(p: Prefix, ex: seq<Prefix>)
    requires p.Aligned() && AllAligned(ex) && Covered(p, ex)
    ensures AllExcluded(p, ex)
  {
    var i :| 0 <= i < |ex| && ex[i].bits <= p.bits && ex[i].Contains(p.addr);
    Nest(ex[i], p);
    forall a | p.Contains(a) ensures InUnion(a, ex) {
      assert ex[i].Contains(a);
    }
  }

  lemma UntouchedIffFree(p: Prefix, ex: seq<Prefix>)
    requires p.Aligned() && AllAligned(ex)
    ensures !Touched(p, ex) <==> Free(p, ex)
  {
    forall i | 0 <= i < |ex|
      ensures p.Overlaps(ex[i]) <==> exists a :: p.Contains(a) && ex[i].Contains(a)
    {
      OverlapsMeaning(p, ex[i]);
    }
    if Touched(p, ex) {
      var i :| 0 <= i < |ex| && p.Overlaps(ex[i]);
      var a :| p.Contains(a) && ex[i].Contains(a);
      assert InUnion(a, ex);
    }
  }

  /** A prefix that is split holds an exclude that is strictly longer, so the guard
      for length 32 in the source is never taken. */
  lemma SplitHasInner(p: Prefix, ex: seq<Prefix>)
    requires p.Aligned() && AllAligned(ex) && !Covered(p, ex) && Touched(p, ex)
    ensures exists i :: 0 <= i < |ex| && p.bits < ex[i].bits && p.Contains(ex[i].addr)
    ensures p.bits < 32
  {
    var i :| 0 <= i < |ex| && p.Overlaps(ex[i]);
    OverlapsAligned(p, ex[i]);
    assert p.bits < ex[i].bits && p.Contains(ex[i].addr);
  }

  // ---- Exactness ----

  /** The prefixes of `out` lie in `p`, in ascending order, without overlap. */
  ghost predicate Ascending(out: seq<Prefix>, p: Prefix)
    requires AllAligned(out) && p.Aligned()
  {
    && (forall i | 0 <= i < |out| ::
          p.bits <= out[i].bits && p.addr <= out[i].addr && out[i].addr + out[i].Size() <= p.addr + p.Size())
    && forall i, j | 0 <= i < j < |out| :: out[i].addr + out[i].Size() <= out[j].addr
  }

  lemma {:induction false} WalkAscending(p: Prefix, ex: seq<Prefix>)
    requires p.Aligned() && AllAligned(ex)
    ensures AllAligned(Walk(p, ex)) && Ascending(Walk(p, ex), p)
    decreases 32 - p.bits
  {
    if !Covered(p, ex) && Touched(p, ex) {
      SplitHasInner(p, ex);
      Halves(p);
      WalkAscending(p.Left(), ex);
      WalkAscending(p.Right(), ex);
    }
  }

  /** An address is in the output exactly when it is in `p` and in no exclude. */
  lemma {:induction false} WalkExact(p: Prefix, ex: seq<Prefix>, a: nat)
    requires p.Aligned() && AllAligned(ex)
    ensures AllAligned(Walk(p, ex))
    ensures InUnion(a, Walk(p, ex)) <==> p.Contains(a) && !InUnion(a, ex)
    decreases 32 - p.bits
  {
    if Covered(p, ex) {
      CoveredMeansAll(p, ex);
    } else if !Touched(p, ex) {
      UntouchedIffFree(p, ex);
      assert Walk(p, ex)[0] == p;
    } else {
      SplitHasInner(p, ex);
      Halves(p);
      WalkExact(p.Left(), ex, a);
      WalkExact(p.Right(), ex, a);
      InUnionConcat(a, Walk(p.Left(), ex), Walk(p.Right(), ex));
    }
  }

  // ---- Canonicity ----

  lemma {:induction false} AllExcludedEmpty(p: Prefix, ex: seq<Prefix>)
    requires p.Aligned() && AllAligned(ex) && AllExcluded(p, ex)
    ensures Walk(p, ex) == []
  {
    if Walk(p, ex) != [] {
      WalkAscending(p, ex);
      var o := Walk(p, ex)[0];
      WalkExact(p, ex, o.addr);
      assert o.Contains(o.addr);
    }
  }

  /** The output depends only on which addresses of `p` are excluded: order,
      duplicates, nesting and splitting of the excludes do not matter. */
  lemma {:induction false} WalkCanonical(p: Prefix, ex1: seq<Prefix>, ex2: seq<Prefix>)
    requires p.Aligned() && AllAligned(ex1) && AllAligned(ex2)
    requires forall a | p.Contains(a) :: InUnion(a, ex1) <==> InUnion(a, ex2)
    ensures Walk(p, ex1) == Walk(p, ex2)
    decreases 32 - p.bits
  {
    UntouchedIffFree(p, ex1);
    UntouchedIffFree(p, ex2);
    if Covered(p, ex1) || Covered(p, ex2) {
      if Covered(p, ex1) { CoveredMeansAll(p, ex1); } else { CoveredMeansAll(p, ex2); }
      AllExcludedEmpty(p, ex1);
      AllExcludedEmpty(p, ex2);
    } else if Touched(p, ex1) {
      SplitHasInner(p, ex1);
      Halves(p);
      WalkCanonical(p.Left(), ex1, ex2);
      WalkCanonical(p.Right(), ex1, ex2);
    }
  }

  // ---- Minimality ----

  ghost predicate Within(q: Prefix, p: Prefix) {
    q.Aligned() && p.Aligned() && p.bits <= q.bits && p.Contains(q.addr)
  }

  lemma FreeInside(p: Prefix, ex: seq<Prefix>, q: Prefix)
    requires p.Aligned() && AllAligned(ex) && Within(q, p) && Free(q, ex)
    ensures !Covered(p, ex)
    ensures Touched(p, ex) ==> p.bits < q.bits
  {
    assert q.Contains(q.addr);
    if Covered(p, ex) { CoveredMeansAll(p, ex); }
    UntouchedIffFree(p, ex);
    if p.bits == q.bits { MultipleGapEqual(p, q); }
  }

  /** A longer prefix inside `p` is inside one of its halves. */
  lemma HalfHolds(p: Prefix, q: Prefix)
    requires Within(q, p) && p.bits < q.bits
    ensures Within(q, p.Left()) || Within(q, p.Right())
  {
    Halves(p);
  }

  /** Every free aligned prefix inside `p` lies in one output prefix. */
  lemma {:induction false} Absorbed(p: Prefix, ex: seq<Prefix>, q: Prefix) returns (k: nat)
    requires p.Aligned() && AllAligned(ex) && Within(q, p) && Free(q, ex)
    ensures k < |Walk(p, ex)| && Within(q, Walk(p, ex)[k])
    decreases 32 - p.bits
  {
    FreeInside(p, ex, q);
    if !Touched(p, ex) {
      k := 0;
    } else {
      SplitHasInner(p, ex);
      HalfHolds(p, q);
      k := AbsorbedByHalf(p, ex, q);
    }
  }

  lemma {:induction false} AbsorbedByHalf(p: Prefix, ex: seq<Prefix>, q: Prefix) returns (k: nat)
    requires p.Aligned() && AllAligned(ex) && p.bits < 32 && !Covered(p, ex) && Touched(p, ex)
    requires (Within(q, p.Left()) || Within(q, p.Right())) && Free(q, ex)
    ensures k < |Walk(p, ex)| && Within(q, Walk(p, ex)[k])
    decreases 32 - p.bits, 0
  {
    assert p.Left().Aligned() && p.Right().Aligned() by { Halves(p); }
    var l, r := Walk(p.Left(), ex), Walk(p.Right(), ex);
    assert Walk(p, ex) == l + r;
    if Within(q, p.Left()) {
      k := Absorbed(p.Left(), ex, q);
      assert (l + r)[k] == l[k];
    } else {
      var i := Absorbed(p.Right(), ex, q);
      k := |l| + i;
      assert (l + r)[k] == r[i];
    }
  }

  lemma MultipleGapEqual(p: Prefix, q: Prefix)
    requires Within(q, p) && p.bits == q.bits
    ensures p == q
  {
    ContainsByMask(p, q.addr);
  }

  /** `q` is a largest aligned prefix inside `base` that touches no exclude. */
  ghost predicate Maximal(q: Prefix, base: Prefix, ex: seq<Prefix>)
    requires base.Aligned() && AllAligned(ex)
  {
    && Within(q, base) && Free(q, ex)
    && forall r | Within(r, base) && Free(r, ex) && Within(q, r) :: r == q
  }

  lemma OutputIsFree(base: Prefix, ex: seq<Prefix>, k: nat)
    requires base.Aligned() && AllAligned(ex) && k < |Walk(base, ex)|
    ensures Within(Walk(base, ex)[k], base) && Free(Walk(base, ex)[k], ex)
  {
    WalkAscending(base, ex);
    var o := Walk(base, ex)[k];
    forall a | o.Contains(a) ensures !InUnion(a, ex) { WalkExact(base, ex, a); }
  }

  lemma SameOutput(base: Prefix, ex: seq<Prefix>, i: nat, j: nat, a: nat)
    requires base.Aligned() && AllAligned(ex) && i < |Walk(base, ex)| && j < |Walk(base, ex)|
    requires AllAligned(Walk(base, ex)) && Walk(base, ex)[i].Contains(a) && Walk(base, ex)[j].Contains(a)
    ensures i == j
  {
    WalkAscending(base, ex);
  }

  /** The output is exactly the set of maximal free aligned prefixes. */
  lemma WalkIsMaximalSet(base: Prefix, ex: seq<Prefix>, q: Prefix)
    requires base.Aligned() && AllAligned(ex)
    ensures q in Walk(base, ex) <==> Maximal(q, base, ex)
  {
    var out := Walk(base, ex);
    if q in out {
      var k :| 0 <= k < |out| && out[k] == q;
      OutputIsFree(base, ex, k);
      forall r | Within(r, base) && Free(r, ex) && Within(q, r) ensures r == q {
        var j := Absorbed(base, ex, r);
        Nest(out[j], r);
        Nest(r, q);
        OutputIsFree(base, ex, j);
        WalkAscending(base, ex);
        SameOutput(base, ex, j, k, q.addr);
        MultipleGapEqual(r, q);
      }
    }
    if Maximal(q, base, ex) {
      var k := Absorbed(base, ex, q);
      OutputIsFree(base, ex, k);
      assert out[k] == q;
    }
  }

  lemma SizeOrder(q: Prefix, base: Prefix)
    requires q.bits <= 32 && base.bits <= 32 && q.Size() <= base.Size()
    ensures base.bits <= q.bits
  {
    if q.bits < base.bits { Pow2Grows(32 - base.bits, 32 - q.bits); }
  }

  /** A prefix whose addresses all lie in `base` is inside `base`. */
  lemma SubsetIsWithin(q: Prefix, base: Prefix)
    requires q.Aligned() && base.Aligned()
    requires forall a | q.Contains(a) :: base.Contains(a)
    ensures Within(q, base)
  {
    var last := q.addr + q.Size() - 1;
    assert q.Contains(q.addr) && q.Contains(last);
    assert base.Contains(q.addr) && base.Contains(last);
    SizeOrder(q, base);
  }

  /** Each output prefix holds a member of any exact cover by aligned prefixes. */
  lemma CoverMeets(base: Prefix, ex: seq<Prefix>, cover: set<Prefix>, k: nat) returns (q: Prefix)
    requires base.Aligned() && AllAligned(ex) && k < |Walk(base, ex)|
    requires ExactCover(cover, base, ex)
    ensures q in cover && Within(q, Walk(base, ex)[k])
  {
    var out := Walk(base, ex);
    OutputIsFree(base, ex, k);
    Nest(base, out[k]);
    assert out[k].Contains(out[k].addr);
    assert InCover(cover, out[k].addr);
    q :| q in cover && q.Aligned() && q.Contains(out[k].addr);
    forall a | q.Contains(a) ensures base.Contains(a) && !InUnion(a, ex) {
      assert InCover(cover, a);
    }
    SubsetIsWithin(q, base);
    var j := Absorbed(base, ex, q);
    Nest(out[j], q);
    WalkAscending(base, ex);
    SameOutput(base, ex, j, k, out[k].addr);
  }

  ghost predicate InCover(cover: set<Prefix>, a: nat) {
    exists q :: q in cover && q.Aligned() && q.Contains(a)
  }

  /** `cover` is a set of aligned prefixes whose union is `base` minus the excludes. */
  ghost predicate ExactCover(cover: set<Prefix>, base: Prefix, ex: seq<Prefix>)
    requires base.Aligned() && AllAligned(ex)
  {
    && (forall q | q in cover :: q.Aligned())
    && forall a: nat :: InCover(cover, a) <==> base.Contains(a) && !InUnion(a, ex)
  }

  ghost predicate Meets(cover: set<Prefix>, o: Prefix) {
    exists q :: q in cover && Within(q, o)
  }

  lemma {:induction false} DisjointPick(out: seq<Prefix>, p: Prefix, cover: set<Prefix>)
    requires p.Aligned() && AllAligned(out) && Ascending(out, p)
    requires forall k | 0 <= k < |out| :: Meets(cover, out[k])
    ensures |out| <= |cover|
  {
    if out != [] {
      var q :| q in cover && Within(q, out[0]);
      var rest, less := out[1..], cover - {q};
      forall k | 0 <= k < |rest| ensures Meets(less, rest[k]) {
        assert Meets(cover, out[k + 1]);
        var q' :| q' in cover && Within(q', out[k + 1]);
        assert q' != q;
      }
      DisjointPick(rest, p, less);
    }
  }

  /** No set of aligned prefixes with the same union has fewer members than the output. */
  lemma WalkMinimal(base: Prefix, ex: seq<Prefix>, cover: set<Prefix>)
    requires base.Aligned() && AllAligned(ex) && ExactCover(cover, base, ex)
    ensures |Walk(base, ex)| <= |cover|
  {
    WalkAscending(base, ex);
    forall k | 0 <= k < |Walk(base, ex)| ensures Meets(cover, Walk(base, ex)[k]) {
      var q := CoverMeets(base, ex, cover, k);
    }
    DisjointPick(Walk(base, ex), base, cover);
  }

  function Elements(s: seq<Prefix>): set<Prefix> {
    set q | q in s
  }

  /** The output itself, as a set, is such a cover, with one member per entry. */
  lemma WalkIsCover(base: Prefix, ex: seq<Prefix>)
    requires base.Aligned() && AllAligned(ex)
    ensures ExactCover(Elements(Walk(base, ex)), base, ex)
    ensures |Elements(Walk(base, ex))| == |Walk(base, ex)|
  {
    var out := Walk(base, ex);
    var cover := Elements(out);
    WalkAscending(base, ex);
    forall a: nat ensures InCover(cover, a) <==> base.Contains(a) && !InUnion(a, ex) {
      WalkExact(base, ex, a);
      assert InCover(cover, a) <==> InUnion(a, out);
    }
    DistinctCount(out);
  }

  lemma {:induction false} DistinctCount(s: seq<Prefix>)
    requires forall i, j | 0 <= i < j < |s| :: s[i] != s[j]
    ensures |Elements(s)| == |s|
  {
    if s != [] {
      DistinctCount(s[1..]);
      assert Elements(s) == {s[0]} + Elements(s[1..]);
    }
  }

  // ---- Conservation of addresses ----

  ghost function CountExcluded(lo: nat, hi: nat, ex: seq<Prefix>): nat
    requires lo <= hi && AllAligned(ex)
    decreases hi - lo
  {
    if lo == hi then 0 else (if InUnion(lo, ex) then 1 else 0) + CountExcluded(lo + 1, hi, ex)
  }

  function TotalSize(ps: seq<Prefix>): nat
    requires forall i | 0 <= i < |ps| :: ps[i].bits <= 32
  {
    if ps == [] then 0 else ps[0].Size() + TotalSize(ps[1..])
  }

  lemma {:induction false} CountSplit(lo: nat, mid: nat, hi: nat, ex: seq<Prefix>)
    requires lo <= mid <= hi && AllAligned(ex)
    ensures CountExcluded(lo, hi, ex) == CountExcluded(lo, mid, ex) + CountExcluded(mid, hi, ex)
    decreases mid - lo
  {
    if lo < mid { CountSplit(lo + 1, mid, hi, ex); }
  }

  lemma {:induction false} CountUniform(lo: nat, hi: nat, ex: seq<Prefix>, yes: bool)
    requires lo <= hi && AllAligned(ex)
    requires forall a | lo <= a < hi :: InUnion(a, ex) == yes
    ensures CountExcluded(lo, hi, ex) == if yes then hi - lo else 0
    decreases hi - lo
  {
    if lo < hi { CountUniform(lo + 1, hi, ex, yes); }
  }

  lemma {:induction false} TotalSizeConcat(a: seq<Prefix>, b: seq<Prefix>)
    requires AllAligned(a) && AllAligned(b)
    ensures TotalSize(a + b) == TotalSize(a) + TotalSize(b)
  {
    if a == [] {
      assert a + b == b;
    } else {
      TotalSizeConcat(a[1..], b);
      assert (a + b)[1..] == a[1..] + b;
    }
  }

  lemma CountHalves(p: Prefix, ex: seq<Prefix>)
    requires p.Aligned() && AllAligned(ex) && p.bits < 32
    ensures p.Left().Size() + p.Right().Size() == p.Size()
    ensures CountExcluded(p.addr, p.addr + p.Size(), ex)
         == CountExcluded(p.Left().addr, p.Left().addr + p.Left().Size(), ex)
          + CountExcluded(p.Right().addr, p.Right().addr + p.Right().Size(), ex)
  {
    Halves(p);
    CountSplit(p.addr, p.Right().addr, p.addr + p.Size(), ex);
  }

  lemma ConservesLeaf(p: Prefix, ex: seq<Prefix>)
    requires p.Aligned() && AllAligned(ex) && (Covered(p, ex) || !Touched(p, ex))
    ensures AllAligned(Walk(p, ex))
    ensures TotalSize(Walk(p, ex)) + CountExcluded(p.addr, p.addr + p.Size(), ex) == p.Size()
  {
    if Covered(p, ex) {
      CoveredMeansAll(p, ex);
      CountUniform(p.addr, p.addr + p.Size(), ex, true);
    } else {
      UntouchedIffFree(p, ex);
      CountUniform(p.addr, p.addr + p.Size(), ex, false);
      assert TotalSize([p]) == p.Size();
    }
  }

  /** Output addresses and excluded addresses of `p` add up to the size of `p`. */
  ghost predicate Balanced(p: Prefix, ex: seq<Prefix>)
    requires p.Aligned() && AllAligned(ex)
  {
    && AllAligned(Walk(p, ex))
    && TotalSize(Walk(p, ex)) + CountExcluded(p.addr, p.addr + p.Size(), ex) == p.Size()
  }

  lemma SplitTotal(p: Prefix, ex: seq<Prefix>)
    requires p.Aligned() && AllAligned(ex) && p.bits < 32 && !Covered(p, ex) && Touched(p, ex)
    requires p.Left().Aligned() && p.Right().Aligned()
    requires AllAligned(Walk(p.Left(), ex)) && AllAligned(Walk(p.Right(), ex))
    ensures AllAligned(Walk(p, ex))
    ensures TotalSize(Walk(p, ex)) == TotalSize(Walk(p.Left(), ex)) + TotalSize(Walk(p.Right(), ex))
  {
    TotalSizeConcat(Walk(p.Left(), ex), Walk(p.Right(), ex));
  }

  lemma BalancedSplit(p: Prefix, ex: seq<Prefix>)
    requires p.Aligned() && AllAligned(ex) && p.bits < 32 && !Covered(p, ex) && Touched(p, ex)
    requires p.Left().Aligned() && p.Right().Aligned() && Balanced(p.Left(), ex) && Balanced(p.Right(), ex)
    ensures Balanced(p, ex)
  {
    SplitTotal(p, ex);
    CountHalves(p, ex);
  }

  lemma {:induction false} WalkConserves(p: Prefix, ex: seq<Prefix>)
    requires p.Aligned() && AllAligned(ex)
    ensures Balanced(p, ex)
    decreases 32 - p.bits
  {
    if Covered(p, ex) || !Touched(p, ex) {
      ConservesLeaf(p, ex);
    } else {
      SplitAligned(p, ex);
      WalkConserves(p.Left(), ex);
      WalkConserves(p.Right(), ex);
      BalancedSplit(p, ex);
    }
  }

  lemma SplitAligned(p: Prefix, ex: seq<Prefix>)
    requires p.Aligned() && AllAligned(ex) && !Covered(p, ex) && Touched(p, ex)
    ensures p.bits < 32 && p.Left().Aligned() && p.Right().Aligned()
  {
    SplitHasInner(p, ex);
    Halves(p);
  }

  // ---- Linear bound ----

  /** How much longer than `p` the excludes strictly inside `p` are, in total. */
  function Depth(p: Prefix, ex: seq<Prefix>): nat
    requires p.Aligned() && AllAligned(ex)
  {
    if ex == [] then 0
    else (if p.bits < ex[0].bits && p.Contains(ex[0].addr) then ex[0].bits - p.bits else 0) + Depth(p, ex[1..])
  }

  function SumBits(ex: seq<Prefix>): nat {
    if ex == [] then 0 else ex[0].bits + SumBits(ex[1..])
  }

  /** Going down one level loses at least one per exclude strictly inside. */
  lemma {:induction false} DepthDrops(p: Prefix, ex: seq<Prefix>)
    requires p.Aligned() && AllAligned(ex) && p.bits < 32
    ensures p.Left().Aligned() && p.Right().Aligned()
    ensures Depth(p.Left(), ex) + Depth(p.Right(), ex) <= Depth(p, ex)
    ensures (exists i :: 0 <= i < |ex| && p.bits < ex[i].bits && p.Contains(ex[i].addr))
       ==> Depth(p.Left(), ex) + Depth(p.Right(), ex) < Depth(p, ex)
  {
    Halves(p);
    if ex != [] {
      DepthDrops(p, ex[1..]);
      if i :| 0 < i < |ex| && p.bits < ex[i].bits && p.Contains(ex[i].addr) {
        assert ex[1..][i - 1] == ex[i];
      }
    }
  }

  lemma {:induction false} WalkBound(p: Prefix, ex: seq<Prefix>)
    requires p.Aligned() && AllAligned(ex)
    ensures Calls(p, ex) <= 1 + 2 * Depth(p, ex)
    ensures |Walk(p, ex)| <= Depth(p, ex) + (if Touched(p, ex) then 0 else 1)
    decreases 32 - p.bits
  {
    if !Covered(p, ex) && Touched(p, ex) {
      SplitHasInner(p, ex);
      DepthDrops(p, ex);
      WalkBound(p.Left(), ex);
      WalkBound(p.Right(), ex);
      var i :| 0 <= i < |ex| && p.bits < ex[i].bits && p.Contains(ex[i].addr);
      Halves(p);
      OverlapsAligned(p.Left(), ex[i]);
      OverlapsAligned(p.Right(), ex[i]);
      assert Touched(p.Left(), ex) || Touched(p.Right(), ex);
    }
  }

  lemma {:induction false} DepthBelowSum(p: Prefix, ex: seq<Prefix>)
    requires p.Aligned() && AllAligned(ex)
    ensures Depth(p, ex) <= SumBits(ex)
  {
    if ex != [] { DepthBelowSum(p, ex[1..]); }
  }

  /** From 0.0.0.0/0 with at least one exclude, the output has at most as many
      prefixes as the exclude lengths add up to, and the walk makes at most one
      plus twice that many calls. */
  lemma LinearBound(ex: seq<Prefix>)
    requires AllAligned(ex) && ex != []
    ensures ALL.Aligned()
    ensures |Walk(ALL, ex)| <= SumBits(ex)
    ensures Calls(ALL, ex) <= 1 + 2 * SumBits(ex)
  {
    AllContains(ex[0]);
    WalkBound(ALL, ex);
    DepthBelowSum(ALL, ex);
  }
}
