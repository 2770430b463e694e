/** IPv4 prefixes as `net/netip` has them: an address, a length, the addresses they
    contain, and their text form. */
module Prefixes {
  import opened Wrappers
  import opened Text

  function Pow2(n: nat): (r: nat)
    ensures r >= 1
  {
    if n == 0 then 1 else 2 * Pow2(n - 1)
  }

  /** The number of IPv4 addresses. */
  const SPACE: nat := 0x1_0000_0000

  lemma Pow2Of32()
    ensures Pow2(32) == SPACE
  {
    assert Pow2(8) == 256;
    assert Pow2(16) == 65536;
    assert Pow2(24) == 16777216;
  }

  lemma {:induction false} Pow2Grows(m: nat, n: nat)
    requires m < n
    ensures 2 * Pow2(m) <= Pow2(n)
  {
    if m + 1 < n { Pow2Grows(m, n - 1); }
  }

  /** `a` with its low `n` bits cleared. */
  function Mask(a: nat, n: nat): nat {
    if n == 0 then a else 2 * Mask(a / 2, n - 1)
  }

  datatype Prefix = Prefix(addr: nat, bits: nat) {
    predicate Valid() { addr < SPACE && bits <= 32 }

    function Size(): (s: nat)
      requires bits <= 32
      ensures s >= 1
    { Pow2(32 - bits) }

    /** The lowest address, `Masked().Addr()`. */
    function Base(): nat
      requires bits <= 32
    { Mask(addr, 32 - bits) }

    function Masked(): Prefix
      requires bits <= 32
    { Prefix(Base(), bits) }

    predicate Aligned() { Valid() && Base() == addr }

    /** `Prefix.Contains`, which ignores the host bits of the prefix. */
    predicate Contains(a: nat)
      requires bits <= 32
    { Base() <= a < Base() + Size() }

    /** `Prefix.Overlaps`: both addresses masked to the shorter length are equal. */
    predicate Overlaps(o: Prefix)
      requires bits <= 32 && o.bits <= 32
    {
      var m := if bits < o.bits then bits else o.bits;
      Mask(addr, 32 - m) == Mask(o.addr, 32 - m)
    }

    function Left(): Prefix { Prefix(addr, bits + 1) }

    function Right(): Prefix
      requires bits < 32
    { Prefix(addr + Pow2(31 - bits), bits + 1) }
  }

  // ---- Block arithmetic ----

  lemma {:induction false} MaskBound(a: nat, n: nat)
    ensures Mask(a, n) <= a < Mask(a, n) + Pow2(n)
  {
    if n > 0 { MaskBound(a / 2, n - 1); }
  }

  /** The coarser of two masks wins, in either order. */
  lemma {:induction false} MaskMask(a: nat, m: nat, n: nat)
    requires m <= n
    ensures Mask(Mask(a, m), n) == Mask(a, n) == Mask(Mask(a, n), m)
  {
    if m > 0 { MaskMask(a / 2, m - 1, n - 1); }
  }

  /** An address of the block that starts at `x` masks to `x`. */
  lemma {:induction false} MaskUnique(x: nat, a: nat, n: nat)
    requires Mask(x, n) == x && x <= a < x + Pow2(n)
    ensures Mask(a, n) == x
  {
    if n > 0 { MaskUnique(x / 2, a / 2, n - 1); }
  }

  lemma {:induction false} MaskNext(x: nat, n: nat)
    requires Mask(x, n) == x
    ensures Mask(x + Pow2(n), n) == x + Pow2(n)
  {
    if n > 0 {
      MaskNext(x / 2, n - 1);
      assert (x + Pow2(n)) / 2 == x / 2 + Pow2(n - 1);
    }
  }

  lemma {:induction false} MaskZero(n: nat)
    ensures Mask(0, n) == 0
  {
    if n > 0 { MaskZero(n - 1); }
  }

  /** `a` is in `p` exactly when masking it to the length of `p` gives the base of `p`. */
  lemma ContainsByMask(p: Prefix, a: nat)
    requires p.bits <= 32
    ensures p.Contains(a) <==> Mask(a, 32 - p.bits) == p.Base()
  {
    var n := 32 - p.bits;
    MaskMask(p.addr, n, n);
    MaskBound(a, n);
    if p.Contains(a) { MaskUnique(p.Base(), a, n); }
  }

  /** Aligned prefixes nest or are disjoint (the fact the comment on `subtractCIDRs` rests on). */
  lemma Nest(p: Prefix, q: Prefix)
    requires p.Aligned() && q.Aligned() && p.bits <= q.bits
    ensures p.Contains(q.addr) ==> q.addr + q.Size() <= p.addr + p.Size()
    ensures !p.Contains(q.addr) ==> q.addr + q.Size() <= p.addr || p.addr + p.Size() <= q.addr
  {
    var m, n := 32 - q.bits, 32 - p.bits;
    var last := q.addr + q.Size() - 1;
    MaskUnique(q.addr, last, m);
    MaskMask(last, m, n);
    ContainsByMask(p, q.addr);
    ContainsByMask(p, last);
    if q.Contains(p.addr) {
      MaskUnique(q.addr, p.addr, m);
      MaskMask(p.addr, m, n);
    }
  }

  lemma MaskedAligned(p: Prefix)
    requires p.Valid()
    ensures p.Masked().Aligned() && p.Masked().Base() == p.Base()
    ensures p.Contains(p.addr)
  {
    var n := 32 - p.bits;
    MaskBound(p.addr, n);
    MaskMask(p.addr, n, n);
  }

  lemma MaskedContains(p: Prefix, a: nat)
    requires p.Valid()
    ensures p.Masked().Contains(a) <==> p.Contains(a)
  {
    MaskedAligned(p);
  }

  /** On aligned prefixes `Overlaps` says that the shorter one contains the longer. */
  lemma OverlapsAligned(p: Prefix, q: Prefix)
    requires p.Aligned() && q.Aligned()
    ensures p.bits <= q.bits ==> (p.Overlaps(q) <==> p.Contains(q.addr))
    ensures q.bits <= p.bits ==> (p.Overlaps(q) <==> q.Contains(p.addr))
  {
    if p.bits <= q.bits { ContainsByMask(p, q.addr); }
    if q.bits <= p.bits { ContainsByMask(q, p.addr); }
  }

  /** `Overlaps` means a shared address. */
  lemma OverlapsMeaning(p: Prefix, q: Prefix)
    requires p.Aligned() && q.Aligned()
    ensures p.Overlaps(q) <==> exists a :: p.Contains(a) && q.Contains(a)
  {
    OverlapsAligned(p, q);
    if p.bits <= q.bits { Nest(p, q); } else { Nest(q, p); }
    if p.Overlaps(q) {
      var a := if p.bits <= q.bits then q.addr else p.addr;
      assert p.Contains(a) && q.Contains(a);
    }
  }

  lemma MaskedMask(p: Prefix, n: nat)
    requires p.bits <= 32 && 32 - p.bits <= n
    ensures Mask(p.Masked().addr, n) == Mask(p.addr, n)
  {
    MaskMask(p.addr, 32 - p.bits, n);
  }

  /** Masking both operands does not change whether they overlap. */
  lemma OverlapsMasked(p: Prefix, q: Prefix)
    requires p.Valid() && q.Valid()
    ensures p.Overlaps(q) <==> p.Masked().Overlaps(q.Masked())
  {
    var n := 32 - if p.bits < q.bits then p.bits else q.bits;
    MaskedMask(p, n);
    MaskedMask(q, n);
  }

  /** Splitting: the two halves are aligned and partition the prefix. */
  lemma Halves(p: Prefix)
    requires p.Aligned() && p.bits < 32
    ensures p.Left().Aligned() && p.Right().Aligned()
    ensures p.Left().Size() == p.Right().Size() == Pow2(31 - p.bits)
    ensures p.Size() == 2 * Pow2(31 - p.bits)
    ensures p.Right().addr == p.Left().addr + p.Left().Size()
    ensures p.addr + p.Size() <= SPACE
  {
    MaskMask(p.addr, 31 - p.bits, 32 - p.bits);
    MaskNext(p.addr, 31 - p.bits);
    EndsInSpace(p);
  }

  /** 0.0.0.0/0. */
  const ALL: Prefix := Prefix(0, 0)

  lemma Everything()
    ensures ALL.Aligned() && ALL.Size() == SPACE && ALL.Base() == 0
  {
    Pow2Of32();
    MaskZero(32);
  }

  lemma AllContains(q: Prefix)
    requires q.Aligned()
    ensures ALL.Aligned() && ALL.Contains(q.addr) && ALL.Overlaps(q)
  {
    Everything();
    OverlapsAligned(ALL, q);
  }

  lemma ZeroBitsIsAll(p: Prefix)
    requires p.Aligned() && p.bits == 0
    ensures p == ALL
  {
    Everything();
    ContainsByMask(ALL, p.addr);
  }

  lemma EndsInSpace(p: Prefix)
    requires p.Aligned()
    ensures p.addr + p.Size() <= SPACE
  {
    Everything();
    Nest(ALL, p);
  }

  // ---- Text form ----

  function Pack(o0: nat, o1: nat, o2: nat, o3: nat): nat {
    ((o0 * 256 + o1) * 256 + o2) * 256 + o3
  }

  function AddrFields(a: nat): seq<string> {
    [Dec(a / 16777216), Dec(a / 65536 % 256), Dec(a / 256 % 256), Dec(a % 256)]
  }

  /** `Addr.String` of an IPv4 address. */
  function FormatAddr(a: nat): string {
    Join(AddrFields(a), '.')
  }

  /** `netip.ParseAddr`, restricted to IPv4 results. */
  function ParseAddr(s: string): (r: Option<nat>)
    ensures r.Some? ==> r.value < SPACE
  {
    var f := SplitOn(s, '.');
    if |f| != 4 then None else
    match (ParseDec(f[0], 255), ParseDec(f[1], 255), ParseDec(f[2], 255), ParseDec(f[3], 255))
    case (Some(a), Some(b), Some(c), Some(d)) => Some(Pack(a, b, c, d))
    case _ => None
  }

  /** `Prefix.String`. */
  function FormatPrefix(p: Prefix): string {
    Join([FormatAddr(p.addr), Dec(p.bits)], '/')
  }

  /** `netip.ParsePrefix`, restricted to IPv4 results. */
  function ParsePrefix(s: string): (r: Option<Prefix>)
    ensures r.Some? ==> r.value.Valid()
  {
    var f := SplitOn(s, '/');
    if |f| != 2 then None else
    match (ParseAddr(f[0]), ParseDec(f[1], 32))
    case (Some(a), Some(n)) => Some(Prefix(a, n))
    case _ => None
  }

  lemma DecOctet(n: nat)
    requires n < 256
    ensures ParseDec(Dec(n), 255) == Some(n) && '.' !in Dec(n) && '/' !in Dec(n)
  {
    DecRoundTrip(n);
  }

  lemma PackOctets(a: nat)
    requires a < SPACE
    ensures Pack(a / 16777216, a / 65536 % 256, a / 256 % 256, a % 256) == a
  {
    assert a / 256 / 256 == a / 65536;
    assert a / 65536 / 256 == a / 16777216;
  }

  lemma AddrRoundTrip(a: nat)
    requires a < SPACE
    ensures ParseAddr(FormatAddr(a)) == Some(a)
    ensures '/' !in FormatAddr(a)
  {
    var f := AddrFields(a);
    DecOctet(a / 16777216);
    DecOctet(a / 65536 % 256);
    DecOctet(a / 256 % 256);
    DecOctet(a % 256);
    SplitJoin(f, '.');
    JoinChars(f, '.', '/');
    PackOctets(a);
  }

  lemma QuadParses(f: seq<string>, a: nat, b: nat, c: nat, d: nat)
    requires |f| == 4 && forall i | 0 <= i < 4 :: '.' !in f[i]
    requires ParseDec(f[0], 255) == Some(a) && ParseDec(f[1], 255) == Some(b) && ParseDec(f[2], 255) == Some(c) && ParseDec(f[3], 255) == Some(d)
    ensures ParseAddr(Join(f, '.')) == Some(((a * 256 + b) * 256 + c) * 256 + d)
  {
    SplitJoin(f, '.');
  }

  /** The first octet of the text is the most significant one. */
  lemma DottedQuad(a: nat, b: nat, c: nat, d: nat, f: seq<string>)
    requires a < 256 && b < 256 && c < 256 && d < 256 && f == [Dec(a), Dec(b), Dec(c), Dec(d)]
    ensures ParseAddr(Join(f, '.')) == Some(((a * 256 + b) * 256 + c) * 256 + d)
  {
    DecOctet(a);
    DecOctet(b);
    DecOctet(c);
    DecOctet(d);
    QuadParses(f, a, b, c, d);
  }

  /** The length of a prefix stands after the slash. */
  lemma SlashLength(addr: string, a: nat, n: nat)
    requires ParseAddr(addr) == Some(a) && '/' !in addr && n <= 32
    ensures ParsePrefix(Join([addr, Dec(n)], '/')) == Some(Prefix(a, n))
  {
    DecRoundTrip(n);
    SplitJoin([addr, Dec(n)], '/');
  }

  /** Parsing the printed form of a prefix gives the prefix back. */
  lemma PrefixRoundTrip(p: Prefix)
    requires p.Valid()
    ensures ParsePrefix(FormatPrefix(p)) == Some(p)
  {
    AddrRoundTrip(p.addr);
    DecRoundTrip(p.bits);
    SplitJoin([FormatAddr(p.addr), Dec(p.bits)], '/');
  }

  predicate CidrChar(c: char) { IsDigit(c) || c == '.' || c == '/' }

  lemma {:induction false} SplitChars(s: string, sep: char, c: char)
    requires c in s
    ensures c == sep || exists f :: f in SplitOn(s, sep) && c in f
  {
    var r := SplitOn(s, sep);
    var rest := SplitOn(s[1..], sep);
    if c != sep {
      if c == s[0] {
        assert c in r[0];
      } else {
        SplitChars(s[1..], sep, c);
        var f :| f in rest && c in f;
        if s[0] != sep && f == rest[0] {
          assert c in r[0];
        } else {
          assert f in r;
        }
      }
    }
  }

  lemma DigitsOnly(s: string, max: nat, c: char)
    requires ParseDec(s, max).Some? && c in s
    ensures IsDigit(c)
  {
  }

  lemma AddrChars(s: string, c: char)
    requires ParseAddr(s).Some? && c in s
    ensures IsDigit(c) || c == '.'
  {
    SplitChars(s, '.', c);
    if c != '.' {
      var f := SplitOn(s, '.');
      var k :| 0 <= k < |f| && c in f[k];
      DigitsOnly(f[k], 255, c);
    }
  }

  lemma PrefixChars(s: string, c: char)
    requires ParsePrefix(s).Some? && c in s
    ensures CidrChar(c)
  {
    SplitChars(s, '/', c);
    if c != '/' {
      var f := SplitOn(s, '/');
      if c in f[0] {
        AddrChars(f[0], c);
      } else {
        DigitsOnly(f[1], 32, c);
      }
    }
  }

  lemma ParsedNonEmpty(s: string)
    requires ParsePrefix(s).Some?
    ensures s != []
  {
    assert SplitOn([], '/') == [[]];
  }

  lemma CidrCharsClean(s: string)
    requires forall c | c in s :: CidrChar(c)
    ensures NoSpace(s) && ',' !in s && '#' !in s && '\n' !in s
  {
    forall i | 0 <= i < |s| ensures !IsSpace(s[i]) { assert s[i] in s; }
  }

  /** A string that parses as an IPv4 prefix holds digits, dots and a slash only. */
  lemma ParsedChars(s: string)
    requires ParsePrefix(s).Some?
    ensures s != [] && forall c | c in s :: CidrChar(c)
    ensures NoSpace(s) && ',' !in s && '#' !in s && '\n' !in s
  {
    ParsedNonEmpty(s);
    forall c | c in s ensures CidrChar(c) {
      PrefixChars(s, c);
    }
    CidrCharsClean(s);
  }
}
