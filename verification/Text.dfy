/** Option and Result values shared by every module. */
module Wrappers {
  datatype Option<+T> = None | Some(value: T)
  datatype Result<+T, +E> = Ok(value: T) | Err(error: E)
}

/** The Go string helpers the operator and the agent rely on: `strings.Split`,
    `strings.Join`, `strings.Fields`, `strings.TrimSpace` and decimal numbers. */
module Text {
  import opened Wrappers

  // ---- Split and join ----

  /** `strings.Split` with a one-character separator. */
  function SplitOn(s: string, sep: char): (r: seq<string>)
    ensures |r| >= 1
  {
    if s == [] then [[]]
    else
      var rest := SplitOn(s[1..], sep);
      if s[0] == sep then [[]] + rest else [[s[0]] + rest[0]] + rest[1..]
  }

  /** `strings.Join` with a one-character separator. */
  function Join(parts: seq<string>, sep: char): string {
    if |parts| == 0 then ""
    else if |parts| == 1 then parts[0]
    else parts[0] + [sep] + Join(parts[1..], sep)
  }

  lemma {:induction false} SplitHead(p: string, t: string, sep: char)
    requires sep !in p
    ensures SplitOn(p + [sep] + t, sep) == [p] + SplitOn(t, sep)
    ensures SplitOn(p, sep) == [p]
  {
    if p == [] {
      assert p + [sep] + t == [sep] + t;
      assert ([sep] + t)[1..] == t;
    } else {
      SplitHead(p[1..], t, sep);
      assert (p + [sep] + t)[1..] == p[1..] + [sep] + t;
      assert p == [p[0]] + p[1..];
    }
  }

  /** Splitting a joined list gives the list back when no part holds the separator. */
  lemma {:induction false} SplitJoin(parts: seq<string>, sep: char)
    requires |parts| > 0
    requires forall i | 0 <= i < |parts| :: sep !in parts[i]
    ensures SplitOn(Join(parts, sep), sep) == parts
  {
    if |parts| == 1 {
      SplitHead(parts[0], "", sep);
    } else {
      SplitHead(parts[0], Join(parts[1..], sep), sep);
      SplitJoin(parts[1..], sep);
      assert parts == [parts[0]] + parts[1..];
    }
  }

  lemma {:induction false} JoinChars(parts: seq<string>, sep: char, c: char)
    ensures c in Join(parts, sep) ==> c == sep || exists i :: 0 <= i < |parts| && c in parts[i]
  {
    if |parts| > 1 {
      JoinChars(parts[1..], sep, c);
    }
  }

  function Concat(parts: seq<string>): string {
    if parts == [] then "" else parts[0] + Concat(parts[1..])
  }

  // ---- White space ----

  /** `unicode.IsSpace`. */
  predicate IsSpace(c: char) {
    var n := c as int;
    9 <= n <= 13 || n == 32 || n == 0x85 || n == 0xA0 || n == 0x1680 || 0x2000 <= n <= 0x200A
    || n == 0x2028 || n == 0x2029 || n == 0x202F || n == 0x205F || n == 0x3000
  }

  predicate NoSpace(s: string) {
    forall i | 0 <= i < |s| :: !IsSpace(s[i])
  }

  function TrimLeft(s: string): string {
    if s != [] && IsSpace(s[0]) then TrimLeft(s[1..]) else s
  }

  function TrimRight(s: string): string {
    if s != [] && IsSpace(s[|s| - 1]) then TrimRight(s[..|s| - 1]) else s
  }

  /** `strings.TrimSpace`. */
  function TrimSpace(s: string): string {
    TrimRight(TrimLeft(s))
  }

  predicate AllSpace(s: string) {
    forall i | 0 <= i < |s| :: IsSpace(s[i])
  }

  lemma {:induction false} TrimLeftMeaning(s: string) returns (cut: string)
    ensures s == cut + TrimLeft(s) && AllSpace(cut) && (TrimLeft(s) != [] ==> !IsSpace(TrimLeft(s)[0]))
  {
    if s != [] && IsSpace(s[0]) {
      var rest := TrimLeftMeaning(s[1..]);
      cut := [s[0]] + rest;
      assert s == [s[0]] + s[1..];
    } else {
      cut := [];
    }
  }

  lemma {:induction false} TrimRightMeaning(s: string) returns (cut: string)
    ensures s == TrimRight(s) + cut && AllSpace(cut)
    ensures TrimRight(s) != [] ==> !IsSpace(TrimRight(s)[|TrimRight(s)| - 1]) && TrimRight(s)[0] == s[0]
  {
    if s != [] && IsSpace(s[|s| - 1]) {
      var rest := TrimRightMeaning(s[..|s| - 1]);
      cut := rest + [s[|s| - 1]];
      assert s == s[..|s| - 1] + [s[|s| - 1]];
    } else {
      cut := [];
    }
  }

  /** Trimming takes white space off both ends and nothing else. */
  lemma TrimSpaceMeaning(s: string) returns (left: string, right: string)
    ensures s == left + TrimSpace(s) + right && AllSpace(left) && AllSpace(right)
    ensures TrimSpace(s) != [] ==> !IsSpace(TrimSpace(s)[0]) && !IsSpace(TrimSpace(s)[|TrimSpace(s)| - 1])
  {
    left := TrimLeftMeaning(s);
    right := TrimRightMeaning(TrimLeft(s));
  }

  /** The length of the run of non-space characters that starts `s`. */
  function TokenLength(s: string): (n: nat)
    ensures n <= |s|
    ensures NoSpace(s[..n])
    ensures n < |s| ==> IsSpace(s[n])
  {
    if s == [] || IsSpace(s[0]) then 0 else
    var n := 1 + TokenLength(s[1..]);
    assert forall i | 0 < i < n :: s[i] == s[1..][i - 1];
    n
  }

  /** `strings.Fields`. */
  function Fields(s: string): (r: seq<string>)
    ensures forall f | f in r :: f != [] && NoSpace(f)
    decreases |s|
  {
    if s == [] then []
    else if IsSpace(s[0]) then Fields(s[1..])
    else
      var n := TokenLength(s);
      [s[..n]] + Fields(s[n..])
  }

  lemma {:induction false} TokenLengthOf(tok: string, rest: string)
    requires NoSpace(tok) && (rest == [] || IsSpace(rest[0]))
    ensures TokenLength(tok + rest) == |tok|
  {
    if tok == [] {
      assert tok + rest == rest;
    } else {
      assert (tok + rest)[1..] == tok[1..] + rest;
      TokenLengthOf(tok[1..], rest);
    }
  }

  /** A token before a blank is a field of its own. */
  lemma FieldsCons(tok: string, rest: string)
    requires tok != [] && NoSpace(tok)
    ensures Fields(tok + " " + rest) == [tok] + Fields(rest)
  {
    var s, t := tok + " " + rest, " " + rest;
    assert s == tok + t;
    TokenLengthOf(tok, t);
    assert s[..|tok|] == tok && s[|tok|..] == t && s[0] == tok[0];
    assert t[1..] == rest;
  }

  lemma FieldsOne(tok: string)
    requires tok != [] && NoSpace(tok)
    ensures Fields(tok) == [tok]
  {
    assert tok + [] == tok;
    TokenLengthOf(tok, []);
    assert tok[..|tok|] == tok && tok[|tok|..] == [];
  }

  // ---- Decimal numbers ----

  predicate IsDigit(c: char) { '0' <= c <= '9' }

  predicate AllDigits(s: string) {
    forall i | 0 <= i < |s| :: IsDigit(s[i])
  }

  function Digit(d: nat): (c: char)
    requires d < 10
    ensures IsDigit(c)
  {
    (48 + d) as char
  }

  /** `%d` of a non-negative number. */
  function Dec(n: nat): string {
    if n < 10 then [Digit(n)] else Dec(n / 10) + [Digit(n % 10)]
  }

  function DecValue(s: string): nat
    requires AllDigits(s)
  {
    if s == [] then 0 else 10 * DecValue(s[..|s| - 1]) + (s[|s| - 1] as int - 48)
  }

  /** A decimal number as netip reads octets and prefix lengths: at least one
      digit, no sign, no leading zero, no value above `max`. */
  function ParseDec(s: string, max: nat): Option<nat> {
    if s != [] && AllDigits(s) && (|s| > 1 ==> s[0] != '0') && DecValue(s) <= max
    then Some(DecValue(s)) else None
  }

  lemma {:induction false} DecRoundTrip(n: nat)
    ensures Dec(n) != [] && AllDigits(Dec(n)) && DecValue(Dec(n)) == n
    ensures |Dec(n)| > 1 ==> Dec(n)[0] != '0'
    ensures n > 0 ==> Dec(n)[0] != '0'
    ensures forall max: nat | n <= max :: ParseDec(Dec(n), max) == Some(n)
  {
    if n >= 10 {
      DecRoundTrip(n / 10);
      var s := Dec(n);
      assert s[..|s| - 1] == Dec(n / 10);
      assert s[0] == Dec(n / 10)[0];
    } else {
      assert DecValue(Dec(n)[..0]) == 0;
    }
  }

  /** `%d` of any integer. */
  function SignedDec(n: int): string {
    if n < 0 then "-" + Dec(-n) else Dec(n)
  }

  lemma SignedDecInjective(m: int, n: int)
    requires SignedDec(m) == SignedDec(n)
    ensures m == n
  {
    DecRoundTrip(if m < 0 then -m else m);
    DecRoundTrip(if n < 0 then -n else n);
    assert m < 0 ==> SignedDec(m)[0] == '-' && SignedDec(m)[1..] == Dec(-m);
    assert n < 0 ==> SignedDec(n)[0] == '-' && SignedDec(n)[1..] == Dec(-n);
  }

  lemma SignedDecChars(n: int)
    ensures forall c | c in SignedDec(n) :: c == '-' || IsDigit(c)
  {
    DecRoundTrip(if n < 0 then -n else n);
  }
}

/** Byte-wise string order, as `sort.Strings` and `slices.Sort` use it, and the
    fact the callers need: a strictly sorted list is determined by its elements. */
module Order {

  predicate Le(a: string, b: string) {
    a == [] || (b != [] && (a[0] < b[0] || (a[0] == b[0] && Le(a[1..], b[1..]))))
  }

  /** The first place where two strings differ decides, and a prefix comes first. */
  lemma {:induction false} LeMeaning(a: string, b: string)
    ensures Le(a, b) <==> a <= b || exists k :: 0 <= k < |a| && k < |b| && a[..k] == b[..k] && a[k] < b[k]
  {
    if a != [] && b != [] && a[0] == b[0] {
      LeMeaning(a[1..], b[1..]);
      var x, y := a[1..], b[1..];
      if k :| 0 <= k < |x| && k < |y| && x[..k] == y[..k] && x[k] < y[k] {
        assert a[..k + 1] == [a[0]] + x[..k] && b[..k + 1] == [b[0]] + y[..k];
        assert a[k + 1] < b[k + 1];
      }
      if k :| 0 <= k < |a| && k < |b| && a[..k] == b[..k] && a[k] < b[k] {
        assert x[..k - 1] == a[..k][1..] && y[..k - 1] == b[..k][1..];
        assert x[k - 1] < y[k - 1];
      }
      assert x <= y <==> a <= b;
    } else if a != [] && b != [] {
      if a[0] < b[0] { assert a[..0] == b[..0]; }
    }
  }

  predicate Sorted(s: seq<string>) {
    forall i, j | 0 <= i < j < |s| :: Le(s[i], s[j])
  }

  predicate StrictlySorted(s: seq<string>) {
    forall i, j | 0 <= i < j < |s| :: Le(s[i], s[j]) && s[i] != s[j]
  }

  lemma {:induction false} LeTotal(a: string, b: string)
    ensures Le(a, b) || Le(b, a)
    ensures Le(a, a)
  {
    if a != [] {
      LeTotal(a[1..], if b != [] then b[1..] else []);
    }
  }

  lemma {:induction false} LeAntisymmetric(a: string, b: string)
    requires Le(a, b) && Le(b, a)
    ensures a == b
  {
    if a != [] {
      LeAntisymmetric(a[1..], b[1..]);
      assert a == [a[0]] + a[1..] && b == [b[0]] + b[1..];
    }
  }

  lemma {:induction false} LeTransitive(a: string, b: string, c: string)
    requires Le(a, b) && Le(b, c)
    ensures Le(a, c)
  {
    if a != [] && a[0] == b[0] == c[0] {
      LeTransitive(a[1..], b[1..], c[1..]);
    }
  }

  function Insert(x: string, s: seq<string>): seq<string> {
    if s == [] || Le(x, s[0]) then [x] + s else [s[0]] + Insert(x, s[1..])
  }

  /** The result of `sort.Strings`: the library promises only that the result is
      sorted and holds the same elements, which `SortIsSorted` proves. */
  function Sort(s: seq<string>): seq<string> {
    if s == [] then [] else Insert(s[0], Sort(s[1..]))
  }

  lemma {:induction false} InsertIsSorted(x: string, s: seq<string>)
    requires Sorted(s)
    ensures Sorted(Insert(x, s))
    ensures multiset(Insert(x, s)) == multiset(s) + multiset{x}
  {
    if s == [] {
    } else if Le(x, s[0]) {
      forall j | 0 <= j < |s| ensures Le(x, s[j]) {
        if j > 0 { LeTransitive(x, s[0], s[j]); }
      }
    } else {
      InsertIsSorted(x, s[1..]);
      LeTotal(x, s[0]);
      assert s == [s[0]] + s[1..];
      var t := Insert(x, s[1..]);
      forall j | 0 <= j < |t| ensures Le(s[0], t[j]) {
        assert t[j] in multiset(t);
        assert t[j] == x || t[j] in s[1..];
      }
    }
  }

  lemma {:induction false} SortIsSorted(s: seq<string>)
    ensures Sorted(Sort(s))
    ensures multiset(Sort(s)) == multiset(s)
  {
    if s != [] {
      SortIsSorted(s[1..]);
      InsertIsSorted(s[0], Sort(s[1..]));
      assert s == [s[0]] + s[1..];
    }
  }

  lemma SamePermutation<T(!new)>(a: seq<T>, b: seq<T>)
    requires multiset(a) == multiset(b)
    ensures |a| == |b| && forall x :: x in a <==> x in b
  {
    assert |multiset(a)| == |a| && |multiset(b)| == |b|;
    assert forall x :: x in a <==> x in multiset(a);
    assert forall x :: x in b <==> x in multiset(b);
  }

  lemma SortSameElements(s: seq<string>)
    ensures |Sort(s)| == |s| && forall x :: x in Sort(s) <==> x in s
  {
    SortIsSorted(s);
    SamePermutation(Sort(s), s);
  }

  predicate NoDuplicates(s: seq<string>) {
    forall i, j | 0 <= i < j < |s| :: s[i] != s[j]
  }

  lemma {:induction false} CountOnce(s: seq<string>)
    ensures NoDuplicates(s) <==> forall x | x in s :: multiset(s)[x] == 1
  {
    if s != [] {
      CountOnce(s[1..]);
      assert s == [s[0]] + s[1..];
      assert NoDuplicates(s) <==> NoDuplicates(s[1..]) && s[0] !in s[1..];
      assert forall x | x in s[1..] :: multiset(s)[x] == multiset(s[1..])[x] + (if x == s[0] then 1 else 0);
    }
  }

  /** Sorting a list without duplicates sorts it strictly. */
  lemma SortStrict(s: seq<string>)
    requires NoDuplicates(s)
    ensures StrictlySorted(Sort(s))
  {
    SortIsSorted(s);
    SortSameElements(s);
    CountOnce(s);
    CountOnce(Sort(s));
  }

  /** A strictly sorted list is the enumeration of its elements. */
  lemma {:induction false} StrictlySortedUnique(a: seq<string>, b: seq<string>)
    requires StrictlySorted(a) && StrictlySorted(b)
    requires forall x :: x in a <==> x in b
    ensures a == b
  {
    assert b != [] ==> b[0] in a;
    if a != [] {
      assert a[0] in b;
      var i :| 0 <= i < |b| && b[i] == a[0];
      var j :| 0 <= j < |a| && a[j] == b[0];
      if i > 0 && j > 0 { LeAntisymmetric(a[0], b[0]); }
      assert a[0] == b[0];
      forall x ensures x in a[1..] <==> x in b[1..] {
        assert x in a[1..] <==> x in a && x != a[0];
        assert x in b[1..] <==> x in b && x != b[0];
      }
      StrictlySortedUnique(a[1..], b[1..]);
      assert a == [a[0]] + a[1..] && b == [b[0]] + b[1..];
    }
  }
}
