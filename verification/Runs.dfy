/** Runs of state machines: a start state followed by states linked by a step relation. */
module Runs {

  function Last<T>(x: T, states: seq<T>): T {
    if states == [] then x else states[|states| - 1]
  }

  lemma LastConcat<T>(x: T, s: seq<T>, t: seq<T>)
    ensures Last(x, s + t) == Last(Last(x, s), t)
  {
    if t == [] { assert s + t == s; }
  }

  lemma Append3<T>(a: seq<T>, b: seq<T>, c: seq<T>)
    ensures (a + b) + c == a + (b + c)
  {
  }

  lemma InSnoc<T>(s: seq<T>, last: T, x: T)
    ensures x in s + [last] <==> x in s || x == last
  {
  }

  /** The first of the remaining steps moves to the past. */
  lemma Shift<T>(past: seq<T>, labels: seq<T>, run: seq<T>)
    requires labels != [] && run == past + labels
    ensures run == past + [labels[0]] + labels[1..]
  {
  }

  ghost predicate Chain<T(!new)>(x: T, states: seq<T>, step: (T, T) -> bool) {
    states != [] ==> step(x, states[0]) && Chain(states[0], states[1..], step)
  }

  lemma {:induction false} ChainConcat<T(!new)>(x: T, s: seq<T>, t: seq<T>, step: (T, T) -> bool)
    requires Chain(x, s, step) && Chain(Last(x, s), t, step)
    ensures Chain(x, s + t, step)
    decreases |s|
  {
    if s == [] {
      assert s + t == t;
    } else {
      assert (s + t)[1..] == s[1..] + t;
      ChainConcat(s[0], s[1..], t, step);
    }
  }

  lemma ChainOne<T(!new)>(x: T, y: T, step: (T, T) -> bool)
    requires step(x, y)
    ensures Chain(x, [y], step)
  {
    assert [y][1..] == [];
  }

  lemma {:induction false} ChainPrefix<T(!new)>(x: T, s: seq<T>, n: nat, step: (T, T) -> bool)
    requires n <= |s| && Chain(x, s, step)
    ensures Chain(x, s[..n], step)
    decreases n
  {
    if n > 0 {
      ChainPrefix(s[0], s[1..], n - 1, step);
      assert s[..n][1..] == s[1..][..n - 1];
    }
  }

  lemma {:induction false} ChainWiden<T(!new)>(x: T, s: seq<T>, few: (T, T) -> bool, many: (T, T) -> bool)
    requires Chain(x, s, few) && forall a, b :: few(a, b) ==> many(a, b)
    ensures Chain(x, s, many)
    decreases |s|
  {
    if s != [] { ChainWiden(s[0], s[1..], few, many); }
  }

  /** What holds at the start and is kept by every step holds in every state. */
  lemma {:induction false} ChainInvariant<T(!new)>(x: T, s: seq<T>, step: (T, T) -> bool, inv: T -> bool)
    requires Chain(x, s, step) && inv(x)
    requires forall a, b :: inv(a) && step(a, b) ==> inv(b)
    ensures forall i | 0 <= i < |s| :: inv(s[i])
    ensures inv(Last(x, s))
    decreases |s|
  {
    if s != [] {
      ChainInvariant(s[0], s[1..], step, inv);
      assert forall i | 0 < i < |s| :: s[i] == s[1..][i - 1];
    }
  }
}
