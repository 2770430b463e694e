/** The metrics token cache: concurrent checks that hold the lock only for the lookup and
    for the insertion, with the two remote reviews in between. */
module TokenCache {
  import opened Wrappers
  import Runs

  /** Two minutes, in seconds. */
  const TTL: nat := 120
  const CACHE_MAX: nat := 128

  /** A cached token with an expiry in the future. */
  predicate Hit(allowed: map<string, nat>, token: string, now: nat) {
    token in allowed && now < allowed[token]
  }

  /** The map after remembering a token: a full cache is emptied first. */
  function Remembered(allowed: map<string, nat>, token: string, now: nat): map<string, nat> {
    (if |allowed| >= CACHE_MAX then map[] else allowed)[token := now + TTL]
  }

  lemma RememberedSize(allowed: map<string, nat>, token: string, now: nat)
    ensures |allowed| <= CACHE_MAX ==> |Remembered(allowed, token, now)| <= CACHE_MAX
  {
    var base: map<string, nat> := if |allowed| >= CACHE_MAX then map[] else allowed;
    var r := base[token := now + TTL];
    assert r.Keys == base.Keys + {token};
    assert |r| == |r.Keys| && |base| == |base.Keys|;
    assert |base.Keys + {token}| <= |base.Keys| + 1;
  }

  // ---- The object ----

  /** One insertion: the token and the time. */
  datatype Entry = Entry(token: string, time: nat)

  /** The cache after a history of insertions. */
  function Cache(history: seq<Entry>): map<string, nat> {
    if history == [] then map[]
    else
      var last := history[|history| - 1];
      Remembered(Cache(history[..|history| - 1]), last.token, last.time)
  }

  /** Insertion `j` found the cache full and emptied it. */
  predicate Resets(history: seq<Entry>, j: nat)
    requires j < |history|
  {
    |Cache(history[..j])| >= CACHE_MAX
  }

  /** Insertion `j` leaves what insertion `i` put there. */
  predicate Spares(history: seq<Entry>, i: nat, j: nat)
    requires i < j < |history|
  {
    history[j].token != history[i].token && !Resets(history, j)
  }

  /** Insertion `i` is the latest of its token, and no reset came after it. */
  ghost predicate Alive(history: seq<Entry>, i: nat)
    requires i < |history|
  {
    forall j | i < j < |history| :: Spares(history, i, j)
  }

  /** Insertion `i` is what the cache holds for the token. */
  ghost predicate Holds(history: seq<Entry>, i: int, token: string, expires: nat) {
    0 <= i < |history| && history[i].token == token && history[i].time + TTL == expires && Alive(history, i)
  }

  /** The token was inserted less than the TTL ago, and neither re-inserted nor dropped
      by a reset since. */
  ghost predicate Fresh(history: seq<Entry>, token: string, now: nat) {
    exists i, expires: nat :: Holds(history, i, token, expires) && now < expires
  }

  lemma SparesShorter(history: seq<Entry>, n: nat, i: nat, j: nat)
    requires i < j < n <= |history|
    ensures Spares(history[..n], i, j) == Spares(history, i, j)
  {
    assert history[..n][..j] == history[..j];
  }

  lemma AliveShorter(history: seq<Entry>, n: nat, i: nat)
    requires i < n == |history| - 1
    ensures Alive(history, i) <==> Alive(history[..n], i) && Spares(history, i, n)
  {
    forall j | i < j < n ensures Spares(history[..n], i, j) == Spares(history, i, j) {
      SparesShorter(history, n, i, j);
    }
  }

  /** What the map holds for a token is its last insertion, unless a reset came after it. */
  lemma {:induction false} HeldIsCached(history: seq<Entry>, i: nat, token: string, expires: nat)
    requires Holds(history, i, token, expires)
    ensures token in Cache(history) && Cache(history)[token] == expires
    decreases |history|
  {
    var n := |history| - 1;
    if i < n {
      AliveShorter(history, n, i);
      HeldIsCached(history[..n], i, token, expires);
    }
  }

  lemma {:induction false} CachedIsHeld(history: seq<Entry>, token: string) returns (i: nat)
    requires token in Cache(history)
    ensures Holds(history, i, token, Cache(history)[token])
    decreases |history|
  {
    var n := |history| - 1;
    i := n;
    if history[n].token != token {
      i := CachedIsHeld(history[..n], token);
      AliveShorter(history, n, i);
    }
  }

  /** The two critical sections of `check`. */
  class Authenticator {
    var allowed: map<string, nat>
    ghost var history: seq<Entry>

    ghost predicate Valid()
      reads this
    {
      allowed == Cache(history) && |allowed| <= CACHE_MAX
    }

    constructor ()
      ensures Valid() && history == []
    {
      allowed := map[];
      history := [];
    }

    method Lookup(token: string, now: nat) returns (hit: bool)
      requires Valid()
      ensures hit <==> Fresh(history, token, now)
    {
      hit := token in allowed && now < allowed[token];
      if hit {
        var _ := CachedIsHeld(history, token);
      } else if i, expires: nat :| Holds(history, i, token, expires) && now < expires {
        HeldIsCached(history, i, token, expires);
      }
    }

    method Remember(token: string, now: nat)
      requires Valid()
      modifies this
      ensures Valid() && history == old(history) + [Entry(token, now)]
    {
      RememberedSize(allowed, token, now);
      if |allowed| >= CACHE_MAX {
        allowed := map[];
      }
      allowed := allowed[token := now + TTL];
      history := history + [Entry(token, now)];
      assert history[..|history| - 1] == old(history);
    }
  }

  // ---- Concurrent checks ----

  datatype Answer = OK | Unauthorized | Forbidden | Error

  datatype Check =
    | Looking(token: string)
    | Reviewing(token: string)
    | Authorizing(token: string)
    | Positive(token: string)
    | Answered(token: string, answer: Answer)

  datatype Review = Yes | No | Failed

  datatype State = State(clock: nat, allowed: map<string, nat>, checks: map<nat, Check>)

  const START: State := State(0, map[], map[])

  datatype Label =
    | Pass(seconds: nat)
    | Arrive(id: nat, token: string)
    | Lookup(id: nat)
    | TokenReview(id: nat, result: Review)
    | AccessReview(id: nat, result: Review)
    | Insert(id: nat)

  predicate Enabled(s: State, l: Label) {
    match l
    case Pass(_) => true
    case Arrive(id, _) => id !in s.checks
    case Lookup(id) => id in s.checks && s.checks[id].Looking?
    case TokenReview(id, _) => id in s.checks && s.checks[id].Reviewing?
    case AccessReview(id, _) => id in s.checks && s.checks[id].Authorizing?
    case Insert(id) => id in s.checks && s.checks[id].Positive?
  }

  /** What a check does next after the lookup. */
  function AfterLookup(s: State, token: string): Check {
    if Hit(s.allowed, token, s.clock) then Answered(token, OK) else Reviewing(token)
  }

  function AfterTokenReview(token: string, r: Review): Check {
    match r case Yes => Authorizing(token) case No => Answered(token, Unauthorized) case Failed => Answered(token, Error)
  }

  function AfterAccessReview(token: string, r: Review): Check {
    match r case Yes => Positive(token) case No => Answered(token, Forbidden) case Failed => Answered(token, Error)
  }

  function Apply(s: State, l: Label): State
    requires Enabled(s, l)
  {
    match l
    case Pass(n) => s.(clock := s.clock + n)
    case Arrive(id, token) => s.(checks := s.checks[id := Looking(token)])
    case Lookup(id) => s.(checks := s.checks[id := AfterLookup(s, s.checks[id].token)])
    case TokenReview(id, r) => s.(checks := s.checks[id := AfterTokenReview(s.checks[id].token, r)])
    case AccessReview(id, r) => s.(checks := s.checks[id := AfterAccessReview(s.checks[id].token, r)])
    case Insert(id) =>
      var token := s.checks[id].token;
      s.(allowed := Remembered(s.allowed, token, s.clock), checks := s.checks[id := Answered(token, OK)])
  }

  function Run(s: State, labels: seq<Label>): Option<State>
    decreases |labels|
  {
    if labels == [] then Some(s)
    else if !Enabled(s, labels[0]) then None
    else Run(Apply(s, labels[0]), labels[1..])
  }

  // ---- What the steps of a run say ----

  /** The time that passes in a sequence of steps. */
  function Elapsed(labels: seq<Label>): nat {
    if labels == [] then 0
    else
      var last := labels[|labels| - 1];
      Elapsed(labels[..|labels| - 1]) + if last.Pass? then last.seconds else 0
  }

  /** Step `i` of the run is `l`. */
  predicate At(run: seq<Label>, i: int, l: Label) { 0 <= i < |run| && run[i] == l }

  /** Before step `n` the check asked for the token and its token review was positive. */
  ghost predicate Authenticated(run: seq<Label>, id: nat, token: string, n: nat) {
    exists h, i :: h < i < n && At(run, h, Arrive(id, token)) && At(run, i, TokenReview(id, Yes))
  }

  /** Before step `n` both of its reviews were positive, in this order. */
  ghost predicate Approved(run: seq<Label>, id: nat, token: string, n: nat) {
    exists j: nat :: j < n && Authenticated(run, id, token, j) && At(run, j, AccessReview(id, Yes))
  }

  /** Step `k` inserts the token, for a check with both reviews positive. */
  ghost predicate Stores(run: seq<Label>, token: string, k: nat) {
    k < |run| && run[k].Insert? && Approved(run, run[k].id, token, k)
  }

  /** The check inserted the token itself, or looked it up less than the TTL after an insertion. */
  ghost predicate Justified(run: seq<Label>, id: nat, token: string) {
    || (exists k: nat :: Stores(run, token, k) && run[k] == Insert(id))
    || (exists k: nat, m: nat :: k < m && Stores(run, token, k) && At(run, m, Lookup(id)) && Elapsed(run[..m]) < Elapsed(run[..k]) + TTL)
  }

  /** A cached expiry is that of an insertion of the run. */
  ghost predicate Backed(run: seq<Label>, token: string, expires: nat) {
    exists k: nat :: Stores(run, token, k) && expires == Elapsed(run[..k]) + TTL
  }

  /** What a check has to show for the stage it has reached. */
  ghost predicate Explained(run: seq<Label>, id: nat, c: Check) {
    match c
    case Looking(token) => Arrive(id, token) in run
    case Reviewing(token) => Arrive(id, token) in run
    case Authorizing(token) => Authenticated(run, id, token, |run|)
    case Positive(token) => Approved(run, id, token, |run|)
    case Answered(token, answer) =>
      match answer
      case OK => Justified(run, id, token)
      case Unauthorized => TokenReview(id, No) in run
      case Forbidden => AccessReview(id, No) in run
      case Error => TokenReview(id, Failed) in run || AccessReview(id, Failed) in run
  }

  // ---- A longer run keeps what was said ----

  lemma PrefixSame(run: seq<Label>, l: Label, n: nat)
    requires n <= |run|
    ensures (run + [l])[..n] == run[..n]
  {
  }

  lemma ApprovedLater(run: seq<Label>, l: Label, id: nat, token: string, n: nat, m: nat)
    requires n <= m
    ensures Authenticated(run, id, token, n) ==> Authenticated(run + [l], id, token, m)
    ensures Approved(run, id, token, n) ==> Approved(run + [l], id, token, m)
  {
    var more := run + [l];
    forall i, x | At(run, i, x) ensures At(more, i, x) { }
    if Authenticated(run, id, token, n) {
      var h, i :| h < i < n && At(run, h, Arrive(id, token)) && At(run, i, TokenReview(id, Yes));
      assert At(more, h, Arrive(id, token)) && At(more, i, TokenReview(id, Yes));
    }
    if Approved(run, id, token, n) {
      var j: nat :| j < n && Authenticated(run, id, token, j) && At(run, j, AccessReview(id, Yes));
      var h, i :| h < i < j && At(run, h, Arrive(id, token)) && At(run, i, TokenReview(id, Yes));
      assert At(more, h, Arrive(id, token)) && At(more, i, TokenReview(id, Yes));
      assert Authenticated(more, id, token, j) && At(more, j, AccessReview(id, Yes));
    }
  }

  lemma StoresLater(run: seq<Label>, l: Label, token: string, k: nat)
    requires Stores(run, token, k)
    ensures Stores(run + [l], token, k)
  {
    ApprovedLater(run, l, run[k].id, token, k, k);
  }

  lemma BackedLater(run: seq<Label>, l: Label, token: string, expires: nat)
    requires Backed(run, token, expires)
    ensures Backed(run + [l], token, expires)
  {
    var k: nat :| Stores(run, token, k) && expires == Elapsed(run[..k]) + TTL;
    StoresLater(run, l, token, k);
    PrefixSame(run, l, k);
  }

  lemma JustifiedLater(run: seq<Label>, l: Label, id: nat, token: string)
    requires Justified(run, id, token)
    ensures Justified(run + [l], id, token)
  {
    var more := run + [l];
    if k: nat :| Stores(run, token, k) && run[k] == Insert(id) {
      StoresLater(run, l, token, k);
      assert more[k] == Insert(id);
    } else {
      var k: nat, m: nat :| k < m && Stores(run, token, k) && At(run, m, Lookup(id)) && Elapsed(run[..m]) < Elapsed(run[..k]) + TTL;
      StoresLater(run, l, token, k);
      PrefixSame(run, l, k);
      PrefixSame(run, l, m);
      assert At(more, m, Lookup(id));
    }
  }

  lemma ExplainedLater(run: seq<Label>, l: Label, id: nat, c: Check)
    requires Explained(run, id, c)
    ensures Explained(run + [l], id, c)
  {
    match c
    case Authorizing(token) => ApprovedLater(run, l, id, token, |run|, |run| + 1);
    case Positive(token) => ApprovedLater(run, l, id, token, |run|, |run| + 1);
    case Answered(token, OK) => JustifiedLater(run, l, id, token);
    case _ =>
  }

  // ---- Soundness ----

  /** Every entry of the cache is that of an insertion of the run. */
  ghost predicate AllBacked(allowed: map<string, nat>, run: seq<Label>) {
    forall token | token in allowed :: Backed(run, token, allowed[token])
  }

  ghost predicate ChecksExplained(s: State, run: seq<Label>) {
    forall id | id in s.checks :: Explained(run, id, s.checks[id])
  }

  ghost predicate Inv(s: State, run: seq<Label>) {
    s.clock == Elapsed(run) && |s.allowed| <= CACHE_MAX && AllBacked(s.allowed, run) && ChecksExplained(s, run)
  }

  /** The check that moves can explain its new stage. */
  lemma MoverExplained(s: State, run: seq<Label>, l: Label)
    requires Inv(s, run) && Enabled(s, l) && !l.Pass?
    ensures Explained(run + [l], l.id, Apply(s, l).checks[l.id])
  {
    assert (run + [l])[|run|] == l;
    match l
    case Arrive(id, token) =>
    case Lookup(id) => LookupExplained(s, run, id);
    case TokenReview(id, r) => TokenReviewExplained(s, run, id, r);
    case AccessReview(id, r) => AccessReviewExplained(s, run, id, r);
    case Insert(id) => InsertStores(s, run, id);
  }

  lemma AccessReviewExplained(s: State, run: seq<Label>, id: nat, r: Review)
    requires Inv(s, run) && Enabled(s, AccessReview(id, r))
    ensures Explained(run + [AccessReview(id, r)], id, AfterAccessReview(s.checks[id].token, r))
  {
    var token, n, more := s.checks[id].token, |run|, run + [AccessReview(id, r)];
    assert Explained(run, id, s.checks[id]);
    ApprovedLater(run, AccessReview(id, r), id, token, n, n);
    assert At(more, n, AccessReview(id, r)) && more[n] in more;
  }

  lemma TokenReviewExplained(s: State, run: seq<Label>, id: nat, r: Review)
    requires Inv(s, run) && Enabled(s, TokenReview(id, r))
    ensures Explained(run + [TokenReview(id, r)], id, AfterTokenReview(s.checks[id].token, r))
  {
    var token, n, more := s.checks[id].token, |run|, run + [TokenReview(id, r)];
    assert Explained(run, id, s.checks[id]);
    var h :| 0 <= h < n && run[h] == Arrive(id, token);
    assert At(more, h, Arrive(id, token)) && At(more, n, TokenReview(id, r));
  }

  lemma LookupExplained(s: State, run: seq<Label>, id: nat)
    requires Inv(s, run) && Enabled(s, Lookup(id))
    ensures Explained(run + [Lookup(id)], id, AfterLookup(s, s.checks[id].token))
  {
    var token, n, more := s.checks[id].token, |run|, run + [Lookup(id)];
    assert Explained(run, id, s.checks[id]);
    if Hit(s.allowed, token, s.clock) {
      var k: nat :| Stores(run, token, k) && s.allowed[token] == Elapsed(run[..k]) + TTL;
      StoresLater(run, Lookup(id), token, k);
      PrefixSame(run, Lookup(id), k);
      PrefixSame(run, Lookup(id), n);
      assert run[..n] == run;
      assert At(more, n, Lookup(id));
    }
  }

  lemma InsertStores(s: State, run: seq<Label>, id: nat)
    requires Inv(s, run) && Enabled(s, Insert(id))
    ensures Stores(run + [Insert(id)], s.checks[id].token, |run|)
    ensures Backed(run + [Insert(id)], s.checks[id].token, s.clock + TTL)
    ensures Justified(run + [Insert(id)], id, s.checks[id].token)
  {
    var token, more := s.checks[id].token, run + [Insert(id)];
    assert Explained(run, id, s.checks[id]);
    ApprovedLater(run, Insert(id), id, token, |run|, |run|);
    assert more[|run|] == Insert(id) && more[..|run|] == run;
    assert Stores(more, token, |run|);
  }

  lemma BackedAll(allowed: map<string, nat>, run: seq<Label>, l: Label)
    requires AllBacked(allowed, run)
    ensures AllBacked(allowed, run + [l])
  {
    forall token | token in allowed ensures Backed(run + [l], token, allowed[token]) {
      BackedLater(run, l, token, allowed[token]);
    }
  }

  lemma RememberedBacked(allowed: map<string, nat>, token: string, now: nat, run: seq<Label>)
    requires AllBacked(allowed, run) && Backed(run, token, now + TTL)
    ensures AllBacked(Remembered(allowed, token, now), run)
  {
  }

  lemma InsertKeepsCache(s: State, run: seq<Label>, id: nat)
    requires Inv(s, run) && Enabled(s, Insert(id))
    ensures AllBacked(Remembered(s.allowed, s.checks[id].token, s.clock), run + [Insert(id)])
    ensures |Remembered(s.allowed, s.checks[id].token, s.clock)| <= CACHE_MAX
  {
    BackedAll(s.allowed, run, Insert(id));
    InsertStores(s, run, id);
    RememberedBacked(s.allowed, s.checks[id].token, s.clock, run + [Insert(id)]);
    RememberedSize(s.allowed, s.checks[id].token, s.clock);
  }

  lemma CacheStaysBacked(s: State, run: seq<Label>, l: Label)
    requires Inv(s, run) && Enabled(s, l)
    ensures AllBacked(Apply(s, l).allowed, run + [l]) && |Apply(s, l).allowed| <= CACHE_MAX
  {
    if l.Insert? {
      InsertKeepsCache(s, run, l.id);
    } else {
      BackedAll(s.allowed, run, l);
    }
  }

  lemma StepKeeps(s: State, run: seq<Label>, l: Label)
    requires Inv(s, run) && Enabled(s, l)
    ensures Inv(Apply(s, l), run + [l])
  {
    var t := Apply(s, l);
    assert (run + [l])[..|run|] == run;
    CacheStaysBacked(s, run, l);
    forall id | id in t.checks ensures Explained(run + [l], id, t.checks[id]) {
      if !l.Pass? && id == l.id {
        MoverExplained(s, run, l);
      } else {
        ExplainedLater(run, l, id, s.checks[id]);
      }
    }
  }

  lemma SameRun(s: State, a: seq<Label>, b: seq<Label>)
    requires Inv(s, a) && b == a + []
    ensures Inv(s, b)
  {
    assert a == b;
  }

  lemma {:induction false} RunKeeps(s: State, past: seq<Label>, labels: seq<Label>, run: seq<Label>)
    requires Inv(s, past) && Run(s, labels).Some? && run == past + labels
    ensures Inv(Run(s, labels).value, run)
    decreases |labels|
  {
    if labels == [] {
      SameRun(s, past, run);
    } else {
      Runs.Shift(past, labels, run);
      StepKeeps(s, past, labels[0]);
      RunKeeps(Apply(s, labels[0]), past + [labels[0]], labels[1..], run);
    }
  }

  /** In every interleaving of checks: at most 128 entries; every cached token was inserted
      by a check of that token with both reviews positive before; every 200 is such an
      insertion by the check itself or a lookup less than the TTL after one; and every
      other answer follows the negative or failed review of that check. */
  lemma CacheSound(labels: seq<Label>)
    requires Run(START, labels).Some?
    ensures var s := Run(START, labels).value;
            && |s.allowed| <= CACHE_MAX
            && AllBacked(s.allowed, labels)
            && (forall id | id in s.checks :: Explained(labels, id, s.checks[id]))
  {
    assert Inv(START, []);
    RunKeeps(START, [], labels, labels);
  }

  // ---- Every review decides its check ----

  /** What the run says about the check. */
  datatype Trace = Trace(rejected: bool, forbidden: bool, failed: bool, inserted: bool)

  function TraceOf(run: seq<Label>, id: nat): Trace {
    Trace(TokenReview(id, No) in run, AccessReview(id, No) in run,
          TokenReview(id, Failed) in run || AccessReview(id, Failed) in run, Insert(id) in run)
  }

  function Extend(x: Trace, l: Label, id: nat): Trace {
    Trace(x.rejected || l == TokenReview(id, No), x.forbidden || l == AccessReview(id, No),
          x.failed || l == TokenReview(id, Failed) || l == AccessReview(id, Failed), x.inserted || l == Insert(id))
  }

  lemma TraceGrows(run: seq<Label>, l: Label, id: nat)
    ensures TraceOf(run + [l], id) == Extend(TraceOf(run, id), l, id)
  {
    Runs.InSnoc(run, l, TokenReview(id, No));
    Runs.InSnoc(run, l, AccessReview(id, No));
    Runs.InSnoc(run, l, TokenReview(id, Failed));
    Runs.InSnoc(run, l, AccessReview(id, Failed));
    Runs.InSnoc(run, l, Insert(id));
  }

  function CheckAt(s: State, id: nat): Option<Check> {
    if id in s.checks then Some(s.checks[id]) else None
  }

  predicate AnsweredWith(c: Option<Check>, answer: Answer) {
    c.Some? && c.value.Answered? && c.value.answer == answer
  }

  /** 401 exactly after a negative token review, 403 exactly after a negative access review,
      an error exactly after a failed one, and 200 after every insertion. */
  predicate Fits(c: Option<Check>, x: Trace) {
    && (AnsweredWith(c, Unauthorized) <==> x.rejected)
    && (AnsweredWith(c, Forbidden) <==> x.forbidden)
    && (AnsweredWith(c, Error) <==> x.failed)
    && (x.inserted ==> AnsweredWith(c, OK))
  }

  lemma StepFits(s: State, l: Label, id: nat, x: Trace)
    requires Enabled(s, l) && Fits(CheckAt(s, id), x)
    ensures Fits(CheckAt(Apply(s, l), id), Extend(x, l, id))
  {
    if l.Pass? || l.id != id {
      assert CheckAt(Apply(s, l), id) == CheckAt(s, id);
    }
  }

  ghost predicate Decided(s: State, run: seq<Label>) {
    forall id: nat :: Fits(CheckAt(s, id), TraceOf(run, id))
  }

  lemma StepDecides(s: State, run: seq<Label>, l: Label)
    requires Decided(s, run) && Enabled(s, l)
    ensures Decided(Apply(s, l), run + [l])
  {
    forall id: nat ensures Fits(CheckAt(Apply(s, l), id), TraceOf(run + [l], id)) {
      StepFits(s, l, id, TraceOf(run, id));
      TraceGrows(run, l, id);
    }
  }

  lemma {:induction false} RunDecides(s: State, past: seq<Label>, labels: seq<Label>, run: seq<Label>)
    requires Decided(s, past) && Run(s, labels).Some? && run == past + labels
    ensures Decided(Run(s, labels).value, run)
    decreases |labels|
  {
    if labels == [] {
      assert run == past;
    } else {
      Runs.Shift(past, labels, run);
      StepDecides(s, past, labels[0]);
      RunDecides(Apply(s, labels[0]), past + [labels[0]], labels[1..], run);
    }
  }

  /** In every run each review decides its check: the negative and failed ones are answered
      at once with their status and nothing else is, and every insertion is answered 200. */
  lemma ReviewsDecide(labels: seq<Label>, s: State, id: nat)
    requires Run(START, labels) == Some(s)
    ensures AnsweredWith(CheckAt(s, id), Unauthorized) <==> TokenReview(id, No) in labels
    ensures AnsweredWith(CheckAt(s, id), Forbidden) <==> AccessReview(id, No) in labels
    ensures AnsweredWith(CheckAt(s, id), Error) <==> TokenReview(id, Failed) in labels || AccessReview(id, Failed) in labels
    ensures Insert(id) in labels ==> AnsweredWith(CheckAt(s, id), OK)
  {
    RunDecides(START, [], labels, labels);
    assert Fits(CheckAt(s, id), TraceOf(labels, id));
  }

  // ---- The age of a cached decision ----

  lemma {:induction false} ElapsedConcat(a: seq<Label>, b: seq<Label>)
    ensures Elapsed(a + b) == Elapsed(a) + Elapsed(b)
    decreases |b|
  {
    if b == [] {
      assert a + b == a;
    } else {
      ElapsedConcat(a, b[..|b| - 1]);
      assert (a + b)[..|a + b| - 1] == a + b[..|b| - 1];
    }
  }

  lemma ElapsedOne(l: Label)
    ensures Elapsed([l]) == if l.Pass? then l.seconds else 0
  {
    assert [l][..0] == [];
  }

  /** No step of the run inserts the token. */
  ghost predicate Quiet(s: State, labels: seq<Label>, token: string)
    requires Run(s, labels).Some?
    decreases |labels|
  {
    labels != [] ==>
      && !(labels[0].Insert? && s.checks[labels[0].id].token == token)
      && Quiet(Apply(s, labels[0]), labels[1..], token)
  }

  /** While nobody inserts the token again its expiry stays, or a reset drops it. */
  lemma {:induction false} EntryStays(s: State, labels: seq<Label>, token: string, expires: nat)
    requires Run(s, labels).Some? && Quiet(s, labels, token)
    requires token in s.allowed ==> s.allowed[token] == expires
    ensures var t := Run(s, labels).value;
            && (token in t.allowed ==> t.allowed[token] == expires)
            && t.clock == s.clock + Elapsed(labels)
    decreases |labels|
  {
    if labels != [] {
      EntryStays(Apply(s, labels[0]), labels[1..], token, expires);
      assert labels == [labels[0]] + labels[1..];
      ElapsedConcat([labels[0]], labels[1..]);
      ElapsedOne(labels[0]);
    }
  }

  /** After `more`, the lookup of a check of the token answers 200. */
  ghost predicate Serves(s: State, more: seq<Label>, other: nat, token: string) {
    && Run(s, more).Some? && Quiet(s, more, token)
    && var t := Run(s, more).value;
       && Enabled(t, Lookup(other)) && t.checks[other].token == token
       && Apply(t, Lookup(other)).checks[other] == Answered(token, OK)
  }

  lemma FreshId(ids: set<nat>) returns (n: nat)
    ensures n !in ids
  {
    n := Bound(ids);
  }

  lemma {:induction false} Bound(ids: set<nat>) returns (n: nat)
    ensures forall x | x in ids :: x < n
  {
    if ids == {} {
      n := 0;
    } else {
      var x :| x in ids;
      var m := Bound(ids - {x});
      n := if m <= x then x + 1 else m;
      assert forall y | y in ids :: y == x || y in ids - {x};
    }
  }

  lemma RunCons(s: State, l: Label, rest: seq<Label>)
    requires Enabled(s, l)
    ensures Run(s, [l] + rest) == Run(Apply(s, l), rest)
  {
    assert ([l] + rest)[1..] == rest;
  }

  /** Right up to its expiry an entry serves a check that arrives then. */
  lemma ServesUntilExpiry(s: State, token: string, wait: nat, other: nat)
    requires Hit(s.allowed, token, s.clock + wait) && other !in s.checks
    ensures Serves(s, [Pass(wait)] + ([Arrive(other, token)] + []), other, token)
    ensures Elapsed([Pass(wait)] + ([Arrive(other, token)] + [])) == wait
  {
    var tail := [Arrive(other, token)] + [];
    var s1 := Apply(s, Pass(wait));
    RunCons(s, Pass(wait), tail);
    RunCons(s1, Arrive(other, token), []);
    assert ([Pass(wait)] + tail)[1..] == tail && tail[1..] == [];
    ElapsedConcat([Pass(wait)], tail);
    ElapsedOne(Pass(wait));
    ElapsedOne(Arrive(other, token));
    assert tail == [Arrive(other, token)];
  }

  /** An entry inserted now serves lookups for exactly the TTL. */
  lemma AgeIff(t: State, token: string, now: nat, at: nat)
    requires token in t.allowed && t.allowed[token] == t.clock + TTL && at <= now
    ensures (forall more, other | Serves(t, more, other, token) :: now + Elapsed(more) < at + TTL) <==> now == at
  {
    forall more, other | Serves(t, more, other, token) ensures Elapsed(more) < TTL {
      EntryStays(t, more, token, t.clock + TTL);
    }
    var other := FreshId(t.checks.Keys);
    var late := [Pass(TTL - 1)] + ([Arrive(other, token)] + []);
    ServesUntilExpiry(t, token, TTL - 1, other);
    assert Serves(t, late, other, token) && Elapsed(late) == TTL - 1;
  }

  lemma ElapsedPrefix(labels: seq<Label>, j: nat)
    requires j <= |labels|
    ensures Elapsed(labels[..j]) <= Elapsed(labels)
  {
    ElapsedConcat(labels[..j], labels[j..]);
    assert labels[..j] + labels[j..] == labels;
  }

  /** The state after a delay and the insertion of a check with positive reviews. */
  function Inserted(s: State, id: nat, delay: nat): State
    requires Enabled(s, Insert(id))
  {
    Apply(Apply(s, Pass(delay)), Insert(id))
  }

  lemma InsertedEntry(s: State, id: nat, delay: nat)
    requires Enabled(s, Insert(id))
    ensures var t, token := Inserted(s, id, delay), s.checks[id].token; token in t.allowed && t.allowed[token] == t.clock + TTL
  {
  }

  /** The TTL counts from the insertion. So whether every 200 that the insertion of a check
      gives to later lookups comes less than the TTL after its review depends on one thing:
      whether the insertion came in the same instant as the review. */
  lemma ReviewAgeBoundedIff(labels: seq<Label>, s: State, j: nat, id: nat, delay: nat)
    requires Run(START, labels) == Some(s) && At(labels, j, AccessReview(id, Yes)) && Enabled(s, Insert(id))
    ensures (forall more, other | Serves(Inserted(s, id, delay), more, other, s.checks[id].token) ::
               Elapsed(labels) + delay + Elapsed(more) < Elapsed(labels[..j]) + TTL)
            <==> Elapsed(labels) + delay == Elapsed(labels[..j])
  {
    ElapsedPrefix(labels, j);
    InsertedEntry(s, id, delay);
    AgeIff(Inserted(s, id, delay), s.checks[id].token, Elapsed(labels) + delay, Elapsed(labels[..j]));
  }

  lemma ReviewedRun(token: string) returns (labels: seq<Label>, s: State)
    ensures Run(START, labels) == Some(s) && s == State(0, map[], map[0 := Positive(token)])
    ensures |labels| == 4 && labels[3] == AccessReview(0, Yes) && forall l | l in labels :: !l.Pass?
  {
    var rest2 := [AccessReview(0, Yes)] + [];
    var rest1 := [TokenReview(0, Yes)] + rest2;
    var rest0 := [Lookup(0)] + rest1;
    labels := [Arrive(0, token)] + rest0;
    var s1 := Apply(START, Arrive(0, token));
    var s2 := Apply(s1, Lookup(0));
    var s3 := Apply(s2, TokenReview(0, Yes));
    s := Apply(s3, AccessReview(0, Yes));
    RunCons(START, Arrive(0, token), rest0);
    RunCons(s1, Lookup(0), rest1);
    RunCons(s2, TokenReview(0, Yes), rest2);
    RunCons(s3, AccessReview(0, Yes), []);
  }

  /** A reachable case: one check waits an hour before its insertion, and another is
      answered 200 an hour after the only reviews of the run. */
  lemma StaleAnswerExample(token: string) returns (labels: seq<Label>, before: State, after: State)
    ensures Run(START, labels) == Some(before) && Run(before, [Pass(3600)] + ([Insert(0)] + [])) == Some(after)
    ensures |labels| == 4 && labels[3] == AccessReview(0, Yes) && forall l | l in labels :: !l.Pass?
    ensures Serves(after, [Pass(0)] + ([Arrive(1, token)] + []), 1, token) && after.clock == 3600
  {
    labels, before := ReviewedRun(token);
    var s5 := Apply(before, Pass(3600));
    after := Apply(s5, Insert(0));
    RunCons(before, Pass(3600), [Insert(0)] + []);
    RunCons(s5, Insert(0), []);
    ServesUntilExpiry(after, token, 0, 1);
  }
}
