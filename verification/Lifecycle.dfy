/** The finalizer lifecycle: one reconcile worker, the stored versions of the
    ScionNetwork object, reads that may be stale but never go back, and the managed
    sets on the AS side. */
module Lifecycle {
  import opened Wrappers
  import Runs

  datatype Backend = Manual | Http(endpoint: string) | Anapaya | Unknown

  /** One stored version of the object; its index is its resource version. */
  datatype Object = Object(finalizer: bool, deletedAt: Option<nat>, backend: Backend)

  /** The worker: idle, or inside a reconcile of the version it read. */
  datatype Worker =
    | Idle
    | Adding(rv: nat)
    | Syncing(backend: Backend)
    | Finalizing(rv: nat)
    | Releasing(rv: nat)

  /** The outcome of one PUT: a failure may or may not have been applied. */
  datatype Outcome = Success | Failure(applied: bool)

  datatype State = State(
    versions: seq<Object>,
    gone: bool,
    seen: nat,
    worker: Worker,
    clock: nat,
    managed: map<string, set<string>>)
  {
    function Latest(): Object
      requires versions != []
    { versions[|versions| - 1] }
  }

  /** No SIG is managed at the endpoint. */
  predicate EmptyAt(managed: map<string, set<string>>, endpoint: string) {
    endpoint in managed ==> managed[endpoint] == {}
  }

  predicate AllEmpty(managed: map<string, set<string>>) {
    forall e | e in managed :: managed[e] == {}
  }

  /** Ten minutes, in seconds. */
  const DEADLINE: nat := 600

  function Start(backend: Backend): State {
    State([Object(false, None, backend)], false, 0, Idle, 0, map[])
  }

  datatype Label =
    | Pass(seconds: nat)
    | Edit(backend: Backend)
    | Delete
    | Get(rv: nat)
    | Add(ok: bool)
    | Sync(nodes: set<string>, backendOk: bool, outcome: Outcome)
    | Deregister(backendOk: bool, outcome: Outcome)
    | Release(ok: bool)
    | Abort
    | LatePut(endpoint: string, nodes: set<string>)

  predicate Enabled(s: State, l: Label) {
    s.versions != [] &&
    match l
    case Pass(_) => true
    case Edit(_) => !s.gone
    case Delete => !s.gone && s.Latest().deletedAt.None?
    case Get(rv) => s.worker.Idle? && s.seen <= rv < |s.versions|
    case Add(_) => s.worker.Adding? && s.worker.rv < |s.versions|
    case Sync(_, _, _) => s.worker.Syncing?
    case Deregister(_, _) =>
      s.worker.Finalizing? && s.worker.rv < |s.versions| && s.versions[s.worker.rv].deletedAt.Some?
      && s.versions[s.worker.rv].deletedAt.value <= s.clock
    case Release(_) => s.worker.Releasing? && s.worker.rv < |s.versions|
    case Abort => true
    case LatePut(_, _) => true
  }

  /** `Update` by the worker: it fails on a conflict, or when the object is gone. */
  predicate UpdateLands(s: State, rv: nat, ok: bool) {
    ok && !s.gone && rv == |s.versions| - 1
  }

  /** `Reconcile` up to the first write: deleted objects are finalized (or ignored when
      the finalizer is gone), others get the finalizer before anything is registered. */
  function AfterGet(obj: Object, rv: nat): Worker {
    if obj.deletedAt.Some? then (if obj.finalizer then Finalizing(rv) else Idle)
    else if !obj.finalizer then Adding(rv) else Syncing(obj.backend)
  }

  /** `syncRegistrar` with the backend of the spec: only http sends anything. */
  function AfterSync(s: State, backend: Backend, nodes: set<string>, backendOk: bool, outcome: Outcome): State {
    if backend.Http? && backendOk && Lands(outcome)
    then s.(managed := s.managed[backend.endpoint := nodes], worker := Idle)
    else s.(worker := Idle)
  }

  /** The PUT reached the registrar. */
  predicate Lands(outcome: Outcome) { outcome.Success? || outcome.applied }

  /** `finalize` up to the removal of the finalizer. It goes on to release when the backend
      cannot be built, has nothing to deregister or answered, and past the deadline. */
  function AfterDeregister(s: State, rv: nat, backendOk: bool, outcome: Outcome): State
    requires rv < |s.versions| && s.versions[rv].deletedAt.Some? && s.versions[rv].deletedAt.value <= s.clock
  {
    var obj := s.versions[rv];
    if !obj.backend.Http? || !backendOk then s.(worker := Releasing(rv))
    else
      s.(managed := if Lands(outcome) then s.managed[obj.backend.endpoint := {}] else s.managed,
         worker := if outcome.Success? || s.clock - obj.deletedAt.value > DEADLINE then Releasing(rv) else Idle)
  }

  function Apply(s: State, l: Label): State
    requires Enabled(s, l)
  {
    match l
    case Pass(n) => s.(clock := s.clock + n)
    case Edit(b) => s.(versions := s.versions + [s.Latest().(backend := b)])
    case Delete =>
      s.(versions := s.versions + [s.Latest().(deletedAt := Some(s.clock))], gone := !s.Latest().finalizer)
    case Get(rv) => s.(seen := rv, worker := AfterGet(s.versions[rv], rv))
    case Add(ok) =>
      var obj := s.versions[s.worker.rv].(finalizer := true);
      if UpdateLands(s, s.worker.rv, ok) then s.(versions := s.versions + [obj], worker := Syncing(obj.backend))
      else s.(worker := Idle)
    case Sync(nodes, backendOk, outcome) => AfterSync(s, s.worker.backend, nodes, backendOk, outcome)
    case Deregister(backendOk, outcome) => AfterDeregister(s, s.worker.rv, backendOk, outcome)
    case Release(ok) =>
      var obj := s.versions[s.worker.rv];
      if UpdateLands(s, s.worker.rv, ok)
      then s.(versions := s.versions + [obj.(finalizer := false)], gone := true, worker := Idle)
      else s.(worker := Idle)
    case Abort => s.(worker := Idle)
    case LatePut(e, nodes) => s.(managed := s.managed[e := nodes])
  }

  function Run(s: State, labels: seq<Label>): Option<State>
    decreases |labels|
  {
    if labels == [] then Some(s)
    else if !Enabled(s, labels[0]) then None
    else Run(Apply(s, labels[0]), labels[1..])
  }

  // ---- What the steps of a run say ----

  /** The time that passes in a sequence of steps. */
  function Elapsed(labels: seq<Label>): nat {
    if labels == [] then 0
    else
      var last := labels[|labels| - 1];
      Elapsed(labels[..|labels| - 1]) + if last.Pass? then last.seconds else 0
  }

  ghost predicate NoLatePut(labels: seq<Label>) {
    forall i | 0 <= i < |labels| :: !labels[i].LatePut?
  }

  /** Step `i` is a documented reason to release without deregistering: the backend could
      not be built, or the PUT failed without effect past the deadline. */
  predicate Excuse(run: seq<Label>, i: int, deletedAt: nat) {
    && 0 <= i < |run| && run[i].Deregister?
    && (run[i].backendOk ==> run[i].outcome == Failure(false) && Elapsed(run[..i]) > deletedAt + DEADLINE)
  }

  /** The endpoint of an object that is released is empty, unless the run holds an excuse. */
  ghost predicate Settled(run: seq<Label>, obj: Object, managed: map<string, set<string>>) {
    obj.backend.Http? && obj.deletedAt.Some? ==>
      EmptyAt(managed, obj.backend.endpoint) || exists i :: Excuse(run, i, obj.deletedAt.value)
  }

  lemma SettledLater(run: seq<Label>, l: Label, obj: Object, managed: map<string, set<string>>)
    requires Settled(run, obj, managed)
    ensures Settled(run + [l], obj, managed)
  {
    if i :| obj.backend.Http? && obj.deletedAt.Some? && Excuse(run, i, obj.deletedAt.value) {
      assert (run + [l])[..i] == run[..i];
      assert Excuse(run + [l], i, obj.deletedAt.value);
    }
  }

  // ---- Invariant over all runs ----

  /** Deletion marks are permanent and never in the future, versions only lose the
      finalizer in the one that makes the object disappear, and a deleted object that
      still exists has it. */
  ghost predicate VersionsOk(s: State) {
    && s.versions != [] && s.seen < |s.versions|
    && (forall i, j | 0 <= i < j < |s.versions| :: s.versions[i].deletedAt.Some? ==> s.versions[j].deletedAt == s.versions[i].deletedAt)
    && (forall i | 0 <= i < |s.versions| && s.versions[i].deletedAt.Some? :: s.versions[i].deletedAt.value <= s.clock)
    && (forall i, j | 0 <= i < j < |s.versions| && s.versions[i].finalizer && !s.versions[j].finalizer :: s.gone && j == |s.versions| - 1)
    && (s.gone ==> s.Latest().deletedAt.Some? && !s.Latest().finalizer)
    && (!s.gone && s.Latest().deletedAt.Some? ==> s.Latest().finalizer)
  }

  /** The worker holds what it read: the finalizer is persisted before anything is sent,
      and what is about to be released is settled. */
  ghost predicate WorkerOk(s: State, run: seq<Label>)
    requires VersionsOk(s)
  {
    match s.worker
    case Idle => true
    case Adding(rv) => rv == s.seen && s.versions[rv].deletedAt.None?
    case Syncing(_) => !s.gone && s.Latest().finalizer
    case Finalizing(rv) => rv == s.seen && s.versions[rv].deletedAt.Some? && s.versions[rv].finalizer
    case Releasing(rv) =>
      rv == s.seen && s.versions[rv].deletedAt.Some? && s.versions[rv].finalizer && Settled(run, s.versions[rv], s.managed)
  }

  ghost predicate NeverFinalized(s: State) {
    forall i | 0 <= i < |s.versions| :: !s.versions[i].finalizer
  }

  /** Nothing is registered before the finalizer, and an object that had it is settled
      once it is gone. */
  ghost predicate GoneOk(s: State, run: seq<Label>)
    requires VersionsOk(s)
  {
    && (NeverFinalized(s) ==> AllEmpty(s.managed))
    && (s.gone && !NeverFinalized(s) ==> s.versions[s.seen].deletedAt.Some? && Settled(run, s.Latest(), s.managed))
  }

  ghost predicate Inv(s: State, run: seq<Label>) {
    s.clock == Elapsed(run) && VersionsOk(s) && WorkerOk(s, run) && GoneOk(s, run)
  }

  /** What was settled stays settled, and time only passes in `Pass`. */
  lemma LongerRun(s: State, run: seq<Label>, l: Label)
    requires Inv(s, run)
    ensures WorkerOk(s, run + [l]) && GoneOk(s, run + [l])
    ensures Elapsed(run + [l]) == s.clock + if l.Pass? then l.seconds else 0
  {
    assert (run + [l])[..|run|] == run;
    if s.worker.Releasing? { SettledLater(run, l, s.versions[s.worker.rv], s.managed); }
    if s.gone && !NeverFinalized(s) { SettledLater(run, l, s.Latest(), s.managed); }
  }

  /** The invariant of a state for a run that has already grown by the step it takes. */
  ghost predicate Ready(s: State, run: seq<Label>) {
    VersionsOk(s) && WorkerOk(s, run) && GoneOk(s, run)
  }

  lemma GetKeeps(s: State, run: seq<Label>, rv: nat)
    requires Ready(s, run) && Enabled(s, Get(rv))
    ensures Ready(Apply(s, Get(rv)), run)
  {
    assert s.versions[rv].finalizer ==> !NeverFinalized(s);
    assert s.versions[rv].finalizer && !s.Latest().finalizer ==> s.gone;
    assert s.versions[s.seen].deletedAt.Some? ==> s.versions[rv].deletedAt.Some?;
  }

  lemma PassKeeps(s: State, run: seq<Label>, l: Label)
    requires Ready(s, run) && Enabled(s, l) && (l.Pass? || l.Abort?)
    ensures Ready(Apply(s, l), run)
  {
  }

  /** A version added by a user copies the finalizer of the one before. */
  lemma NeverFinalizedBefore(s: State, t: State)
    requires s.versions <= t.versions && NeverFinalized(t)
    ensures NeverFinalized(s)
  {
    forall i | 0 <= i < |s.versions| ensures !s.versions[i].finalizer {
      assert t.versions[i] == s.versions[i];
    }
  }

  lemma EditKeeps(s: State, run: seq<Label>, b: Backend)
    requires Ready(s, run) && Enabled(s, Edit(b))
    ensures Ready(Apply(s, Edit(b)), run)
  {
    var t := Apply(s, Edit(b));
    if NeverFinalized(t) { NeverFinalizedBefore(s, t); }
  }

  lemma DeleteKeeps(s: State, run: seq<Label>)
    requires Ready(s, run) && Enabled(s, Delete)
    ensures Ready(Apply(s, Delete), run)
  {
    var t := Apply(s, Delete);
    if NeverFinalized(t) { NeverFinalizedBefore(s, t); }
    if !s.Latest().finalizer {
      forall i | 0 <= i < |t.versions| ensures !t.versions[i].finalizer {
        assert i < |s.versions| ==> t.versions[i] == s.versions[i];
      }
    }
  }

  lemma AddKeeps(s: State, run: seq<Label>, ok: bool)
    requires Ready(s, run) && Enabled(s, Add(ok))
    ensures Ready(Apply(s, Add(ok)), run)
  {
    var t := Apply(s, Add(ok));
    if t.worker.Syncing? { assert t.versions[|s.versions|].finalizer; }
  }

  lemma SyncKeeps(s: State, run: seq<Label>, nodes: set<string>, backendOk: bool, outcome: Outcome)
    requires Ready(s, run) && Enabled(s, Sync(nodes, backendOk, outcome))
    ensures Ready(Apply(s, Sync(nodes, backendOk, outcome)), run)
  {
    assert s.versions[|s.versions| - 1].finalizer;
  }

  /** Emptying an endpoint keeps everything, whatever the worker holds. */
  lemma EmptyingKeeps(s: State, run: seq<Label>, e: string)
    requires Ready(s, run)
    ensures Ready(s.(managed := s.managed[e := {}]), run)
  {
  }

  lemma WorkerMoves(s: State, run: seq<Label>, w: Worker)
    requires Ready(s, run) && s.worker.Finalizing?
    requires w.Idle? || (w == Releasing(s.worker.rv) && Settled(run, s.versions[s.worker.rv], s.managed))
    ensures Ready(s.(worker := w), run)
  {
  }

  lemma DeregisterKeeps(s: State, run: seq<Label>, l: Label)
    requires Ready(s, run + [l]) && Enabled(s, l) && l.Deregister? && s.clock == Elapsed(run)
    ensures Ready(Apply(s, l), run + [l])
  {
    var obj, t, more := s.versions[s.worker.rv], Apply(s, l), run + [l];
    assert more[..|run|] == run && more[|run|] == l;
    if t.worker.Releasing? && !(obj.backend.Http? && l.backendOk && Lands(l.outcome)) {
      assert obj.backend.Http? ==> Excuse(more, |run|, obj.deletedAt.value);
    }
    var u := s.(managed := t.managed);
    if obj.backend.Http? && l.backendOk && Lands(l.outcome) {
      EmptyingKeeps(s, more, obj.backend.endpoint);
    }
    WorkerMoves(u, more, t.worker);
  }

  lemma ReleaseKeeps(s: State, run: seq<Label>, ok: bool)
    requires Ready(s, run) && Enabled(s, Release(ok))
    ensures Ready(Apply(s, Release(ok)), run)
  {
    var t := Apply(s, Release(ok));
    assert t.versions[s.worker.rv].finalizer;
  }

  lemma StepKeeps(s: State, run: seq<Label>, l: Label)
    requires Inv(s, run) && Enabled(s, l) && !l.LatePut?
    ensures Inv(Apply(s, l), run + [l])
  {
    LongerRun(s, run, l);
    var more := run + [l];
    match l
    case Get(rv) => GetKeeps(s, more, rv);
    case Add(ok) => AddKeeps(s, more, ok);
    case Sync(nodes, backendOk, outcome) => SyncKeeps(s, more, nodes, backendOk, outcome);
    case Deregister(_, _) => DeregisterKeeps(s, run, l);
    case Release(ok) => ReleaseKeeps(s, more, ok);
    case Edit(b) => EditKeeps(s, more, b);
    case Delete => DeleteKeeps(s, more);
    case _ => PassKeeps(s, more, l);
  }

  lemma {:induction false} RunKeeps(s: State, past: seq<Label>, labels: seq<Label>, run: seq<Label>)
    requires Inv(s, past) && Run(s, labels).Some? && NoLatePut(labels) && run == past + labels
    ensures Inv(Run(s, labels).value, run)
    decreases |labels|
  {
    if labels == [] {
      assert run == past;
    } else {
      Runs.Shift(past, labels, run);
      StepKeeps(s, past, labels[0]);
      RunKeeps(Apply(s, labels[0]), past + [labels[0]], labels[1..], run);
    }
  }

  /** A state that some run without a late PUT leads to. */
  ghost predicate Reached(backend: Backend, labels: seq<Label>, s: State) {
    Run(Start(backend), labels) == Some(s) && NoLatePut(labels)
  }

  lemma ReachedInv(backend: Backend, labels: seq<Label>, s: State)
    requires Reached(backend, labels, s)
    ensures Inv(s, labels)
  {
    assert Inv(Start(backend), []);
    RunKeeps(Start(backend), [], labels, labels);
  }

  // ---- What every run guarantees ----

  /** A registration is only ever sent while the finalizer is persisted and the object
      still exists. */
  lemma SentOnlyUnderFinalizer(backend: Backend, labels: seq<Label>, s: State, l: Label)
    requires Reached(backend, labels, s) && l.Sync? && Enabled(s, l)
    ensures !s.gone && s.Latest().finalizer
  {
    ReachedInv(backend, labels, s);
  }

  /** When the object has disappeared, nothing is registered at the http endpoint of its
      last version, unless a finalize of the run could not build the backend, or failed
      without effect more than ten minutes after the deletion. */
  lemma GoneMeansDeregistered(backend: Backend, labels: seq<Label>, s: State)
    requires Reached(backend, labels, s) && s.gone
    ensures s.versions != [] && s.Latest().deletedAt.Some?
    ensures s.Latest().backend.Http? ==>
              || EmptyAt(s.managed, s.Latest().backend.endpoint)
              || exists i :: Excuse(labels, i, s.Latest().deletedAt.value)
  {
    ReachedInv(backend, labels, s);
  }

  // ---- A fixed registrar spec ----

  /** No edit changes the backend. */
  ghost predicate FixedSpec(labels: seq<Label>, backend: Backend) {
    forall i | 0 <= i < |labels| && labels[i].Edit? :: labels[i].backend == backend
  }

  ghost predicate OneBackend(s: State, backend: Backend) {
    && (forall i | 0 <= i < |s.versions| :: s.versions[i].backend == backend)
    && (s.worker.Syncing? ==> s.worker.backend == backend)
    && (forall e | e in s.managed :: backend == Http(e))
  }

  lemma {:induction false} FixedKeeps(s: State, labels: seq<Label>, backend: Backend)
    requires OneBackend(s, backend) && Run(s, labels).Some? && NoLatePut(labels) && FixedSpec(labels, backend)
    ensures OneBackend(Run(s, labels).value, backend)
    decreases |labels|
  {
    if labels != [] {
      assert !labels[0].LatePut?;
      FixedStep(s, labels[0], backend);
      FixedKeeps(Apply(s, labels[0]), labels[1..], backend);
    }
  }

  lemma FixedStep(s: State, l: Label, backend: Backend)
    requires OneBackend(s, backend) && Enabled(s, l) && !l.LatePut? && (l.Edit? ==> l.backend == backend)
    ensures OneBackend(Apply(s, l), backend)
  {
  }

  /** With a fixed registrar spec, when the object disappears nothing at all is registered
      on the AS side, with the same two exceptions. */
  lemma DeregisteredBeforeGone(backend: Backend, labels: seq<Label>, s: State)
    requires Reached(backend, labels, s) && FixedSpec(labels, backend) && s.gone
    ensures s.versions != [] && s.Latest().deletedAt.Some?
    ensures AllEmpty(s.managed) || exists i :: Excuse(labels, i, s.Latest().deletedAt.value)
  {
    GoneMeansDeregistered(backend, labels, s);
    FixedKeeps(Start(backend), labels, backend);
  }

  lemma {:induction false} ElapsedConcat(a: seq<Label>, b: seq<Label>)
    ensures Elapsed(a + b) == Elapsed(a) + Elapsed(b)
    decreases |b|
  {
    if b == [] {
      assert a + b == a;
    } else {
      ElapsedConcat(a, b[..|b| - 1]);
      assert (a + b)[..|a + b| - 1] == a + b[..|b| - 1];
    }
  }

  /** So a run that stays within the deadline, and in which every finalize can build its
      backend, leaves nothing registered. */
  lemma DeregisteredInTime(backend: Backend, labels: seq<Label>, s: State)
    requires Reached(backend, labels, s) && FixedSpec(labels, backend) && s.gone
    requires forall i | 0 <= i < |labels| && labels[i].Deregister? :: labels[i].backendOk
    requires s.versions != [] && s.Latest().deletedAt.Some? ==> s.clock <= s.Latest().deletedAt.value + DEADLINE
    ensures AllEmpty(s.managed)
  {
    DeregisteredBeforeGone(backend, labels, s);
    ReachedInv(backend, labels, s);
    if i :| Excuse(labels, i, s.Latest().deletedAt.value) {
      assert labels == labels[..i] + labels[i..];
      ElapsedConcat(labels[..i], labels[i..]);
    }
  }

  // ---- Every reconcile of a live object registers ----

  lemma RunCons(s: State, l: Label, rest: seq<Label>)
    requires Enabled(s, l)
    ensures Run(s, [l] + rest) == Run(Apply(s, l), rest)
  {
    assert ([l] + rest)[1..] == rest;
  }

  /** The managed sets after a PUT of the nodes: it replaces the set of the endpoint in the
      spec if it is sent and lands, and touches no other. */
  function Registered(managed: map<string, set<string>>, backend: Backend, nodes: set<string>, backendOk: bool, outcome: Outcome):
    map<string, set<string>>
  {
    match backend
    case Http(e) => if backendOk && (outcome == Success || outcome == Failure(true)) then managed[e := nodes] else managed
    case _ => managed
  }

  /** The steps of one reconcile of the latest version of a live object. */
  function Reconcile(s: State, nodes: set<string>, backendOk: bool, outcome: Outcome): seq<Label>
    requires s.versions != []
  {
    var sync := [Sync(nodes, backendOk, outcome)] + [];
    [Get(|s.versions| - 1)] + (if s.Latest().finalizer then sync else [Add(true)] + sync)
  }

  /** From every reachable state with an idle worker, a reconcile of a live object runs, the
      first one persists the finalizer, and the first one and every later one replace the
      registered set by the current nodes. */
  lemma ReconcileRegisters(backend: Backend, labels: seq<Label>, s: State, nodes: set<string>, backendOk: bool, outcome: Outcome)
    requires Reached(backend, labels, s) && s.worker.Idle? && s.versions != [] && !s.gone && s.Latest().deletedAt.None?
    ensures Run(s, Reconcile(s, nodes, backendOk, outcome)).Some?
    ensures var t := Run(s, Reconcile(s, nodes, backendOk, outcome)).value;
            && t.managed == Registered(s.managed, s.Latest().backend, nodes, backendOk, outcome) && t.worker.Idle? && !t.gone
            && t.versions != [] && t.Latest() == s.Latest().(finalizer := true)
  {
    ReachedInv(backend, labels, s);
    if s.Latest().finalizer {
      LaterReconcile(s, nodes, backendOk, outcome);
    } else {
      FirstReconcile(s, nodes, backendOk, outcome);
    }
  }

  lemma LaterReconcile(s: State, nodes: set<string>, backendOk: bool, outcome: Outcome)
    requires s.versions != [] && s.seen < |s.versions| && s.worker.Idle?
    requires s.Latest().deletedAt.None? && s.Latest().finalizer
    ensures Run(s, Reconcile(s, nodes, backendOk, outcome))
         == Some(s.(seen := |s.versions| - 1, managed := Registered(s.managed, s.Latest().backend, nodes, backendOk, outcome)))
  {
    var get, sync := Get(|s.versions| - 1), Sync(nodes, backendOk, outcome);
    var s1 := s.(seen := |s.versions| - 1, worker := Syncing(s.Latest().backend));
    GetToSync(s);
    RunCons(s, get, [sync] + []);
    SyncRuns(s1, s.Latest().backend, nodes, backendOk, outcome);
  }

  lemma SyncRuns(s: State, b: Backend, nodes: set<string>, backendOk: bool, outcome: Outcome)
    requires s.versions != [] && s.worker == Syncing(b)
    ensures Run(s, [Sync(nodes, backendOk, outcome)] + [])
         == Some(s.(worker := Idle, managed := Registered(s.managed, b, nodes, backendOk, outcome)))
  {
    RunCons(s, Sync(nodes, backendOk, outcome), []);
  }

  lemma GetToSync(s: State)
    requires s.versions != [] && s.seen < |s.versions| && s.worker.Idle? && s.Latest().deletedAt.None? && s.Latest().finalizer
    ensures Enabled(s, Get(|s.versions| - 1))
    ensures Apply(s, Get(|s.versions| - 1)) == s.(seen := |s.versions| - 1, worker := Syncing(s.Latest().backend))
  {
  }

  lemma GetToAdd(s: State)
    requires s.versions != [] && s.seen < |s.versions| && s.worker.Idle? && s.Latest().deletedAt.None? && !s.Latest().finalizer
    ensures Enabled(s, Get(|s.versions| - 1))
    ensures Apply(s, Get(|s.versions| - 1)) == s.(seen := |s.versions| - 1, worker := Adding(|s.versions| - 1))
  {
  }

  lemma AddToSync(s: State)
    requires s.versions != [] && !s.gone && s.worker == Adding(|s.versions| - 1)
    ensures Enabled(s, Add(true))
    ensures Apply(s, Add(true))
         == s.(versions := s.versions + [s.Latest().(finalizer := true)], worker := Syncing(s.Latest().backend))
  {
  }

  lemma FirstReconcile(s: State, nodes: set<string>, backendOk: bool, outcome: Outcome)
    requires s.versions != [] && s.seen < |s.versions| && s.worker.Idle? && !s.gone
    requires s.Latest().deletedAt.None? && !s.Latest().finalizer
    ensures Run(s, Reconcile(s, nodes, backendOk, outcome))
         == Some(s.(versions := s.versions + [s.Latest().(finalizer := true)], seen := |s.versions| - 1,
                    managed := Registered(s.managed, s.Latest().backend, nodes, backendOk, outcome)))
  {
    var get, sync := Get(|s.versions| - 1), Sync(nodes, backendOk, outcome);
    var obj := s.Latest().(finalizer := true);
    var s1 := s.(seen := |s.versions| - 1, worker := Adding(|s.versions| - 1));
    var s2 := s1.(versions := s.versions + [obj], worker := Syncing(obj.backend));
    GetToAdd(s);
    AddToSync(s1);
    RunCons(s, get, [Add(true)] + ([sync] + []));
    RunCons(s1, Add(true), [sync] + []);
    SyncRuns(s2, obj.backend, nodes, backendOk, outcome);
  }

  // ---- Bounded blocking, and what a release leaves ----

  /** A reconcile that reads the latest version and finalizes it, up to its update. */
  function Finalize(s: State, backendOk: bool, outcome: Outcome): seq<Label>
    requires s.versions != []
  {
    [Get(|s.versions| - 1)] + ([Deregister(backendOk, outcome)] + [])
  }

  lemma FinalizeRuns(s: State, run: seq<Label>, backendOk: bool, outcome: Outcome)
    requires Inv(s, run) && s.worker.Idle? && !s.gone && s.Latest().deletedAt.Some?
    ensures var s1 := s.(seen := |s.versions| - 1, worker := Finalizing(|s.versions| - 1));
            Run(s, Finalize(s, backendOk, outcome)) == Some(AfterDeregister(s1, |s.versions| - 1, backendOk, outcome))
  {
    var get, s1 := Get(|s.versions| - 1), s.(seen := |s.versions| - 1, worker := Finalizing(|s.versions| - 1));
    assert s.Latest().finalizer && s.Latest().deletedAt.value <= s.clock;
    assert Apply(s, get) == s1;
    RunCons(s, get, [Deregister(backendOk, outcome)] + []);
    RunCons(s1, Deregister(backendOk, outcome), []);
  }

  /** From every reachable state of a deleted object, one finalize ends without a release if
      and only if an http deregistration fails within the deadline. Otherwise its update, if
      it succeeds, removes the object. So past the deadline one such finalize is enough. */
  lemma FinalizeReleasesIff(backend: Backend, labels: seq<Label>, s: State, backendOk: bool, outcome: Outcome)
    requires Reached(backend, labels, s) && s.versions != []
    requires s.worker.Idle? && !s.gone && s.Latest().deletedAt.Some?
    ensures Run(s, Finalize(s, backendOk, outcome)).Some?
    ensures var t := Run(s, Finalize(s, backendOk, outcome)).value;
            && (Enabled(t, Release(true)) <==>
                  !(s.Latest().backend.Http? && backendOk && outcome.Failure? && s.clock <= s.Latest().deletedAt.value + DEADLINE))
            && (Enabled(t, Release(true)) ==> Apply(t, Release(true)).gone)
  {
    ReachedInv(backend, labels, s);
    FinalizeRuns(s, labels, backendOk, outcome);
  }

  /** After such a release nothing is registered anywhere if and only if every endpoint that
      still had registrations is the one in the spec and its deregistration landed. */
  lemma ReleaseCleansIff(backend: Backend, labels: seq<Label>, s: State, backendOk: bool, outcome: Outcome)
    requires Reached(backend, labels, s) && s.versions != []
    requires s.worker.Idle? && !s.gone && s.Latest().deletedAt.Some?
    requires Run(s, Finalize(s, backendOk, outcome)).Some? && Enabled(Run(s, Finalize(s, backendOk, outcome)).value, Release(true))
    ensures AllEmpty(Apply(Run(s, Finalize(s, backendOk, outcome)).value, Release(true)).managed) <==>
              forall e | e in s.managed && s.managed[e] != {} :: s.Latest().backend == Http(e) && backendOk && Lands(outcome)
  {
    ReachedInv(backend, labels, s);
    FinalizeRuns(s, labels, backendOk, outcome);
    var obj, t := s.Latest(), Run(s, Finalize(s, backendOk, outcome)).value;
    assert Apply(t, Release(true)).managed == t.managed;
    if obj.backend.Http? && backendOk && Lands(outcome) {
      EmptiedIff(s.managed, obj.backend.endpoint);
      assert t.managed == s.managed[obj.backend.endpoint := {}];
    } else {
      assert t.managed == s.managed;
    }
  }

  lemma EmptiedIff(managed: map<string, set<string>>, endpoint: string)
    ensures AllEmpty(managed[endpoint := {}]) <==> forall e | e in managed && managed[e] != {} :: Http(endpoint) == Http(e)
  {
    if AllEmpty(managed[endpoint := {}]) {
      forall e | e in managed && managed[e] != {} ensures endpoint == e {
        assert e in managed[endpoint := {}];
      }
    }
  }

  /** A reachable case, for every endpoint and node: the node is registered over http, the
      backend is switched to manual, and after deletion and release the node is still there. */
  lemma SpecSwitchLeavesRegistrations(e: string, node: string) returns (labels: seq<Label>, s: State)
    ensures Reached(Http(e), labels, s) && s.gone && s.managed == map[e := {node}]
    ensures forall i | 0 <= i < |labels| && labels[i].Deregister? :: labels[i] == Deregister(true, Success)
  {
    var first, live := RegisteredRun(e, node);
    var rest, end := SwitchedRun(live);
    labels, s := first + rest, end;
    RunConcat(Start(Http(e)), first, rest);
  }

  lemma {:induction false} RunConcat(s: State, a: seq<Label>, b: seq<Label>)
    requires Run(s, a).Some?
    ensures Run(s, a + b) == Run(Run(s, a).value, b)
    decreases |a|
  {
    if a == [] {
      assert a + b == b;
    } else {
      assert (a + b)[1..] == a[1..] + b;
      RunConcat(Apply(s, a[0]), a[1..], b);
    }
  }

  lemma RegisteredRun(e: string, node: string) returns (labels: seq<Label>, s: State)
    ensures Run(Start(Http(e)), labels) == Some(s) && NoLatePut(labels)
    ensures forall i | 0 <= i < |labels| :: !labels[i].Deregister?
    ensures s.versions != [] && s.seen < |s.versions| && s.worker.Idle? && !s.gone && s.managed == map[e := {node}]
    ensures s.Latest().finalizer && s.Latest().deletedAt.None?
  {
    var s0 := Start(Http(e));
    var sync := Sync({node}, true, Success);
    labels := [Get(0)] + ([Add(true)] + ([sync] + []));
    var s1 := Apply(s0, Get(0));
    var s2 := Apply(s1, Add(true));
    s := Apply(s2, sync);
    RunCons(s0, Get(0), [Add(true)] + ([sync] + []));
    RunCons(s1, Add(true), [sync] + []);
    RunCons(s2, sync, []);
  }

  /** From every live state the switch leaves whatever is registered. */
  lemma SwitchedRun(s: State) returns (labels: seq<Label>, t: State)
    requires s.versions != [] && s.seen < |s.versions| && s.worker.Idle? && !s.gone
    requires s.Latest().finalizer && s.Latest().deletedAt.None?
    ensures Run(s, labels) == Some(t) && NoLatePut(labels) && t.gone && t.managed == s.managed
    ensures forall i | 0 <= i < |labels| && labels[i].Deregister? :: labels[i] == Deregister(true, Success)
  {
    var get := Get(|s.versions| + 1);
    var rest := [get] + ([Deregister(true, Success)] + ([Release(true)] + []));
    labels := [Edit(Manual)] + ([Delete] + rest);
    var s1 := Apply(s, Edit(Manual));
    var s2 := Apply(s1, Delete);
    var s3 := Apply(s2, get);
    var s4 := Apply(s3, Deregister(true, Success));
    t := Apply(s4, Release(true));
    RunCons(s, Edit(Manual), [Delete] + rest);
    RunCons(s1, Delete, rest);
    RunCons(s2, get, [Deregister(true, Success)] + ([Release(true)] + []));
    RunCons(s3, Deregister(true, Success), [Release(true)] + []);
    RunCons(s4, Release(true), []);
  }
}
