/** The registrar's HTTP handlers as interleaved steps under one mutex, with a crash of
    the process allowed between any two steps. Nobody else writes the topology file. */
module RegistrarServer {
  import opened Wrappers
  import opened Topology
  import Runs

  type Body = map<string, SIG>

  /** A request; a PUT carries the decoded body, `None` if it is not valid JSON for one. */
  datatype Request = Put(body: Option<Body>) | Get

  /** How a request ended; `Lost` means that a crash took the answer. */
  datatype Status = NoContent | BadRequest | ServerError | BadGateway | Aborted | Lost | OK(managed: Body)

  datatype Handler =
    | Waiting(req: Request)
    | Entered(req: Request)
    | Computed(body: Body, doc: Json)
    | TempWritten(body: Body, doc: Json)
    | Renamed(body: Body)
    | Done(status: Status)

  /** The points where requests take effect, in order. */
  datatype Event = Stored(id: nat, body: Body) | Fetched(id: nat, managed: Body)

  datatype State = State(
    file: Json,
    view: Json,
    lock: Option<nat>,
    handlers: map<nat, Handler>,
    log: seq<Event>)

  datatype Label =
    | Arrive(id: nat, req: Request)
    | Acquire(id: nat)
    | Decline(id: nat)
    | ReadFile(id: nat, ok: bool)
    | WriteTemp(id: nat, ok: bool)
    | Rename(id: nat, ok: bool)
    | ReloadCmd(id: nat, ok: bool, reached: bool)
    | Answer(id: nat, ok: bool)
    | Crash

  function Start(doc: Json): State {
    State(doc, doc, None, map[], [])
  }

  predicate Enabled(s: State, l: Label) {
    match l
    case Arrive(id, _) => id !in s.handlers
    case Acquire(id) => s.lock.None? && id in s.handlers && s.handlers[id].Waiting?
    case Decline(id) => id in s.handlers && s.handlers[id] == Entered(Put(None))
    case ReadFile(id, _) =>
      id in s.handlers && s.handlers[id].Entered? && s.handlers[id].req.Put? && s.handlers[id].req.body.Some?
    case WriteTemp(id, _) => id in s.handlers && s.handlers[id].Computed?
    case Rename(id, _) => id in s.handlers && s.handlers[id].TempWritten?
    case ReloadCmd(id, _, _) => id in s.handlers && s.handlers[id].Renamed?
    case Answer(id, _) => id in s.handlers && s.handlers[id] == Entered(Get)
    case Crash => true
  }

  /** Answer and release the mutex. */
  function Finish(s: State, id: nat, status: Status): State {
    s.(lock := None, handlers := s.handlers[id := Done(status)])
  }

  /** A crash loses every request that has not been answered. */
  function Interrupted(h: Handler): Handler {
    if h.Done? then h else Done(Lost)
  }

  function Apply(s: State, l: Label, prefix: string): State
    requires Enabled(s, l)
  {
    match l
    case Arrive(id, req) => s.(handlers := s.handlers[id := Waiting(req)])
    case Acquire(id) => s.(lock := Some(id), handlers := s.handlers[id := Entered(s.handlers[id].req)])
    case Decline(id) => Finish(s, id, BadRequest)
    case ReadFile(id, ok) =>
      var body := s.handlers[id].req.body.value;
      if !ok then Finish(s, id, ServerError) else
      (match Patch(s.file, body, prefix)
       case Doc(doc) => s.(handlers := s.handlers[id := Computed(body, doc)])
       case ParseError => Finish(s, id, ServerError)
       case Panic => Finish(s, id, Aborted))
    case WriteTemp(id, ok) =>
      if !ok then Finish(s, id, ServerError)
      else s.(handlers := s.handlers[id := TempWritten(s.handlers[id].body, s.handlers[id].doc)])
    case Rename(id, ok) =>
      if !ok then Finish(s, id, ServerError)
      else s.(file := s.handlers[id].doc, log := s.log + [Stored(id, s.handlers[id].body)],
              handlers := s.handlers[id := Renamed(s.handlers[id].body)])
    case ReloadCmd(id, ok, reached) =>
      if ok then Finish(s.(view := s.file), id, NoContent)
      else Finish(s.(view := if reached then s.file else s.view), id, BadGateway)
    case Answer(id, ok) =>
      (match ManagedSigs(s.file, prefix)
       case Some(m) => if ok then Finish(s.(log := s.log + [Fetched(id, m)]), id, OK(m)) else Finish(s, id, ServerError)
       case None => Finish(s, id, ServerError))
    case Crash => s.(lock := None, handlers := map id | id in s.handlers :: Interrupted(s.handlers[id]))
  }

  function Run(s: State, labels: seq<Label>, prefix: string): Option<State>
    decreases |labels|
  {
    if labels == [] then Some(s)
    else if !Enabled(s, labels[0]) then None
    else Run(Apply(s, labels[0], prefix), labels[1..], prefix)
  }

  // ---- Sequential meaning of the log ----

  /** The document after the events: the initial one patched with the last stored body. */
  function DocAfter(doc: Json, log: seq<Event>, prefix: string): Json {
    if log == [] then doc
    else if log[|log| - 1].Fetched? then DocAfter(doc, log[..|log| - 1], prefix)
    else
      var r := Patch(doc, log[|log| - 1].body, prefix);
      if r.Doc? then r.doc else doc
  }

  /** Every stored body could be stored, and every GET returned what the last PUT before
      it stored (or the initial entries): one atomic register. */
  ghost predicate Legal(doc: Json, log: seq<Event>, prefix: string) {
    forall i | 0 <= i < |log| ::
      match log[i]
      case Stored(_, body) => Patch(doc, body, prefix).Doc?
      case Fetched(_, m) => ManagedSigs(DocAfter(doc, log[..i], prefix), prefix) == Some(m)
  }

  // ---- The invariant ----

  predicate InCritical(h: Handler) {
    h.Entered? || h.Computed? || h.TempWritten? || h.Renamed?
  }

  ghost predicate HandlerOk(h: Handler, s: State, doc: Json, prefix: string) {
    match h
    case Computed(body, d) => Patch(s.file, body, prefix) == Doc(d)
    case TempWritten(body, d) => Patch(s.file, body, prefix) == Doc(d)
    case Renamed(body) => Patch(doc, body, prefix) == Doc(s.file)
    case _ => true
  }

  ghost predicate LockOk(s: State) {
    forall id | id in s.handlers && InCritical(s.handlers[id]) :: s.lock == Some(id)
  }

  ghost predicate Inv(s: State, doc: Json, prefix: string) {
    && LockOk(s)
    && (forall id | id in s.handlers :: HandlerOk(s.handlers[id], s, doc, prefix))
    && s.file == DocAfter(doc, s.log, prefix)
    && Legal(doc, s.log, prefix)
  }

  lemma {:induction false} DocAfterIsPatch(doc: Json, log: seq<Event>, prefix: string)
    requires forall i | 0 <= i < |log| && log[i].Stored? :: Patch(doc, log[i].body, prefix).Doc?
    ensures DocAfter(doc, log, prefix) == doc
         || exists i :: 0 <= i < |log| && log[i].Stored? && Patch(doc, log[i].body, prefix) == Doc(DocAfter(doc, log, prefix))
  {
    if log != [] {
      var n := |log| - 1;
      if log[n].Fetched? {
        DocAfterIsPatch(doc, log[..n], prefix);
        if i :| 0 <= i < n && log[..n][i].Stored? && Patch(doc, log[..n][i].body, prefix) == Doc(DocAfter(doc, log[..n], prefix)) {
          assert log[i] == log[..n][i];
        }
      }
    }
  }

  lemma LegalStored(doc: Json, log: seq<Event>, prefix: string)
    requires Legal(doc, log, prefix)
    ensures forall i | 0 <= i < |log| && log[i].Stored? :: Patch(doc, log[i].body, prefix).Doc?
  {
  }

  lemma LegalExtend(doc: Json, log: seq<Event>, e: Event, prefix: string)
    requires Legal(doc, log, prefix)
    requires e.Stored? ==> Patch(doc, e.body, prefix).Doc?
    requires e.Fetched? ==> ManagedSigs(DocAfter(doc, log, prefix), prefix) == Some(e.managed)
    ensures Legal(doc, log + [e], prefix)
    ensures e.Stored? ==> DocAfter(doc, log + [e], prefix) == Patch(doc, e.body, prefix).doc
    ensures e.Fetched? ==> DocAfter(doc, log + [e], prefix) == DocAfter(doc, log, prefix)
  {
    var more := log + [e];
    assert more[..|log|] == log;
    forall i | 0 <= i < |log| ensures more[..i] == log[..i] && more[i] == log[i] {
    }
  }

  /** A patch of the current file is a patch of the initial document. */
  lemma RenameFromStart(doc: Json, log: seq<Event>, body: Body, prefix: string)
    requires Legal(doc, log, prefix) && Patch(DocAfter(doc, log, prefix), body, prefix).Doc?
    ensures Patch(DocAfter(doc, log, prefix), body, prefix) == Patch(doc, body, prefix)
  {
    LegalStored(doc, log, prefix);
    DocAfterIsPatch(doc, log, prefix);
    if i :| 0 <= i < |log| && log[i].Stored? && Patch(doc, log[i].body, prefix) == Doc(DocAfter(doc, log, prefix)) {
      PatchAbsorbs(doc, log[i].body, body, prefix);
    }
  }

  lemma FinishKeeps(s: State, id: nat, status: Status, doc: Json, prefix: string)
    requires Inv(s, doc, prefix) && s.lock == Some(id)
    ensures Inv(Finish(s, id, status), doc, prefix)
  {
  }

  lemma ReadKeeps(s: State, id: nat, ok: bool, doc: Json, prefix: string)
    requires Inv(s, doc, prefix) && Enabled(s, ReadFile(id, ok))
    ensures Inv(Apply(s, ReadFile(id, ok), prefix), doc, prefix)
  {
    FinishKeeps(s, id, ServerError, doc, prefix);
    FinishKeeps(s, id, Aborted, doc, prefix);
  }

  lemma RenameKeeps(s: State, id: nat, ok: bool, doc: Json, prefix: string)
    requires Inv(s, doc, prefix) && Enabled(s, Rename(id, ok))
    ensures Inv(Apply(s, Rename(id, ok), prefix), doc, prefix)
  {
    FinishKeeps(s, id, ServerError, doc, prefix);
    var body := s.handlers[id].body;
    RenameFromStart(doc, s.log, body, prefix);
    LegalExtend(doc, s.log, Stored(id, body), prefix);
  }

  /** Logging what a GET reads keeps everything: the file is not touched. */
  lemma FetchedKeeps(s: State, id: nat, m: Body, doc: Json, prefix: string)
    requires Inv(s, doc, prefix) && ManagedSigs(s.file, prefix) == Some(m)
    ensures Inv(s.(log := s.log + [Fetched(id, m)]), doc, prefix)
  {
    LegalExtend(doc, s.log, Fetched(id, m), prefix);
    var t := s.(log := s.log + [Fetched(id, m)]);
    forall x | x in t.handlers ensures HandlerOk(t.handlers[x], t, doc, prefix) {
      assert HandlerOk(s.handlers[x], s, doc, prefix);
    }
  }

  lemma AnswerKeeps(s: State, id: nat, ok: bool, doc: Json, prefix: string)
    requires Inv(s, doc, prefix) && Enabled(s, Answer(id, ok))
    ensures Inv(Apply(s, Answer(id, ok), prefix), doc, prefix)
  {
    var r := ManagedSigs(s.file, prefix);
    if r.Some? && ok {
      FetchedKeeps(s, id, r.value, doc, prefix);
      FinishKeeps(s.(log := s.log + [Fetched(id, r.value)]), id, OK(r.value), doc, prefix);
    } else {
      FinishKeeps(s, id, ServerError, doc, prefix);
    }
  }

  lemma ReloadKeeps(s: State, id: nat, ok: bool, reached: bool, doc: Json, prefix: string)
    requires Inv(s, doc, prefix) && Enabled(s, ReloadCmd(id, ok, reached))
    ensures Inv(Apply(s, ReloadCmd(id, ok, reached), prefix), doc, prefix)
  {
    if ok {
      FinishKeeps(s.(view := s.file), id, NoContent, doc, prefix);
    } else {
      var view := if reached then s.file else s.view;
      assert Inv(s.(view := view), doc, prefix);
      FinishKeeps(s.(view := view), id, BadGateway, doc, prefix);
    }
  }

  lemma StepKeeps(s: State, l: Label, doc: Json, prefix: string)
    requires Inv(s, doc, prefix) && Enabled(s, l)
    ensures Inv(Apply(s, l, prefix), doc, prefix)
  {
    match l
    case Decline(id) => FinishKeeps(s, id, BadRequest, doc, prefix);
    case ReadFile(id, ok) => ReadKeeps(s, id, ok, doc, prefix);
    case WriteTemp(id, ok) => FinishKeeps(s, id, ServerError, doc, prefix);
    case Rename(id, ok) => RenameKeeps(s, id, ok, doc, prefix);
    case Answer(id, ok) => AnswerKeeps(s, id, ok, doc, prefix);
    case ReloadCmd(id, ok, reached) => ReloadKeeps(s, id, ok, reached, doc, prefix);
    case _ =>
  }

  lemma {:induction false} RunKeeps(s: State, labels: seq<Label>, doc: Json, prefix: string)
    requires Inv(s, doc, prefix) && Run(s, labels, prefix).Some?
    ensures Inv(Run(s, labels, prefix).value, doc, prefix)
    decreases |labels|
  {
    if labels != [] {
      StepKeeps(s, labels[0], doc, prefix);
      RunKeeps(Apply(s, labels[0], prefix), labels[1..], doc, prefix);
    }
  }

  // ---- The mutex is always given back ----

  /** The mutex is held by a request that is being served. */
  ghost predicate HolderServed(s: State) {
    s.lock.Some? ==> s.lock.value in s.handlers && InCritical(s.handlers[s.lock.value])
  }

  lemma StepServed(s: State, l: Label, prefix: string)
    requires HolderServed(s) && LockOk(s) && Enabled(s, l)
    ensures HolderServed(Apply(s, l, prefix))
  {
  }

  lemma {:induction false} RunServed(s: State, labels: seq<Label>, doc: Json, prefix: string)
    requires HolderServed(s) && Inv(s, doc, prefix) && Run(s, labels, prefix).Some?
    ensures HolderServed(Run(s, labels, prefix).value)
    decreases |labels|
  {
    if labels != [] {
      StepServed(s, labels[0], prefix);
      StepKeeps(s, labels[0], doc, prefix);
      RunServed(Apply(s, labels[0], prefix), labels[1..], doc, prefix);
    }
  }

  /** How far a request is from giving the mutex back. */
  function Distance(h: Handler): nat {
    match h
    case Entered(_) => 4 case Computed(_, _) => 3 case TempWritten(_, _) => 2 case Renamed(_) => 1
    case _ => 0
  }

  /** The next step of a request that holds the mutex, if nothing fails. */
  function NextStep(id: nat, h: Handler): Label {
    match h
    case Entered(Get) => Answer(id, true)
    case Entered(Put(None)) => Decline(id)
    case Entered(_) => ReadFile(id, true)
    case Computed(_, _) => WriteTemp(id, true)
    case TempWritten(_, _) => Rename(id, true)
    case _ => ReloadCmd(id, true, true)
  }

  /** The mutex is free, or the request that holds it has come nearer to giving it back. */
  predicate Nearer(s: State, t: State, id: nat) {
    id in s.handlers && id in t.handlers && (t.lock.None? || (t.lock == Some(id) && Distance(t.handlers[id]) < Distance(s.handlers[id])))
  }

  /** In every reachable state the mutex is free, or its holder can go on, and every step `l`
      it takes, whatever the outcome, brings it nearer to giving the mutex back: within four
      steps of its own it is free. A crash frees it at once. */
  lemma MutexGivenBack(doc: Json, labels: seq<Label>, prefix: string, s: State, id: nat, l: Label)
    requires Run(Start(doc), labels, prefix) == Some(s) && s.lock == Some(id)
    ensures id in s.handlers && 0 < Distance(s.handlers[id]) <= 4 && Enabled(s, NextStep(id, s.handlers[id]))
    ensures Apply(s, Crash, prefix).lock.None?
    ensures Enabled(s, l) && !l.Crash? && l.id == id ==> Nearer(s, Apply(s, l, prefix), id)
  {
    assert HolderServed(s) by { RunServed(Start(doc), labels, doc, prefix); }
    HolderReady(s, id);
    if Enabled(s, l) && !l.Crash? && l.id == id {
      HolderMoves(s, l, id, prefix);
    }
  }

  lemma HolderReady(s: State, id: nat)
    requires id in s.handlers && InCritical(s.handlers[id])
    ensures 0 < Distance(s.handlers[id]) <= 4 && Enabled(s, NextStep(id, s.handlers[id]))
  {
  }

  lemma HolderMoves(s: State, l: Label, id: nat, prefix: string)
    requires s.lock == Some(id) && id in s.handlers && InCritical(s.handlers[id]) && Enabled(s, l) && !l.Crash? && l.id == id
    ensures Nearer(s, Apply(s, l, prefix), id)
  {
  }

  // ---- Every answer is an event, every event a request ----

  /** No event of the request is in the log. */
  ghost predicate NoEvent(log: seq<Event>, id: nat) {
    forall i | 0 <= i < |log| :: log[i].id != id
  }

  /** The answer of a request and its event in the log say the same. A request that failed
      has no event; one whose answer was lost may have one. */
  ghost predicate AnswerOk(log: seq<Event>, id: nat, h: Handler) {
    match h
    case Renamed(body) => Stored(id, body) in log
    case Done(OK(m)) => Fetched(id, m) in log
    case Done(NoContent) => exists body :: Stored(id, body) in log
    case Done(BadGateway) => exists body :: Stored(id, body) in log
    case Done(Lost) => true
    case _ => NoEvent(log, id)
  }

  /** Every event belongs to a request that was seen, and no request has two. */
  ghost predicate EventsOk(s: State) {
    && (forall i | 0 <= i < |s.log| :: s.log[i].id in s.handlers)
    && (forall i, j | 0 <= i < j < |s.log| :: s.log[i].id != s.log[j].id)
  }

  ghost predicate Answers(s: State) {
    EventsOk(s) && forall id | id in s.handlers :: AnswerOk(s.log, id, s.handlers[id])
  }

  lemma AnswerLonger(log: seq<Event>, e: Event, id: nat, h: Handler)
    requires AnswerOk(log, id, h) && e.id != id
    ensures AnswerOk(log + [e], id, h)
  {
    forall x | x in log ensures x in log + [e] { }
    if h == Done(NoContent) || h == Done(BadGateway) {
      var body :| Stored(id, body) in log;
      assert Stored(id, body) in log + [e];
    }
  }

  /** One handler moves, possibly with an event of its own. */
  lemma MoveAnswers(s: State, t: State, id: nat)
    requires Answers(s) && id in t.handlers && t.handlers == s.handlers[id := t.handlers[id]]
    requires t.log == s.log || (exists e :: t.log == s.log + [e] && e.id == id && NoEvent(s.log, id))
    requires AnswerOk(t.log, id, t.handlers[id])
    ensures Answers(t)
  {
    if t.log != s.log {
      var e :| t.log == s.log + [e] && e.id == id;
      forall x | x in t.handlers ensures AnswerOk(t.log, x, t.handlers[x]) {
        if x != id { AnswerLonger(s.log, e, x, s.handlers[x]); }
      }
    }
  }

  lemma StepAnswers(s: State, l: Label, prefix: string)
    requires Answers(s) && Enabled(s, l)
    ensures Answers(Apply(s, l, prefix))
  {
    var t := Apply(s, l, prefix);
    if l.Crash? {
    } else if l.Rename? && l.ok {
      assert AnswerOk(s.log, l.id, s.handlers[l.id]);
      assert t.log == s.log + [Stored(l.id, s.handlers[l.id].body)];
      MoveAnswers(s, t, l.id);
    } else if l.Answer? && t.log != s.log {
      AnswerAnswers(s, l.id, l.ok, prefix);
    } else {
      MoveAnswers(s, t, l.id);
    }
  }

  lemma AnswerAnswers(s: State, id: nat, ok: bool, prefix: string)
    requires Answers(s) && Enabled(s, Answer(id, ok)) && Apply(s, Answer(id, ok), prefix).log != s.log
    ensures Answers(Apply(s, Answer(id, ok), prefix))
  {
    var t := Apply(s, Answer(id, ok), prefix);
    var m := ManagedSigs(s.file, prefix).value;
    assert AnswerOk(s.log, id, s.handlers[id]);
    assert t.log == s.log + [Fetched(id, m)] && Fetched(id, m) in t.log;
    MoveAnswers(s, t, id);
  }

  lemma {:induction false} RunAnswers(s: State, labels: seq<Label>, prefix: string)
    requires Answers(s) && Run(s, labels, prefix).Some?
    ensures Answers(Run(s, labels, prefix).value)
    decreases |labels|
  {
    if labels != [] {
      StepAnswers(s, labels[0], prefix);
      RunAnswers(Apply(s, labels[0], prefix), labels[1..], prefix);
    }
  }

  // ---- Every request came in once ----

  /** A handler works on the request that arrived under its id. */
  ghost predicate OriginOk(run: seq<Label>, id: nat, h: Handler) {
    match h
    case Waiting(req) => Arrive(id, req) in run
    case Entered(req) => Arrive(id, req) in run
    case Computed(body, _) => Arrive(id, Put(Some(body))) in run
    case TempWritten(body, _) => Arrive(id, Put(Some(body))) in run
    case Renamed(body) => Arrive(id, Put(Some(body))) in run
    case Done(_) => true
  }

  ghost predicate EventOriginOk(run: seq<Label>, e: Event) {
    match e
    case Stored(id, body) => Arrive(id, Put(Some(body))) in run
    case Fetched(id, _) => Arrive(id, Get) in run
  }

  ghost predicate Origins(s: State, run: seq<Label>) {
    && (forall id | id in s.handlers :: OriginOk(run, id, s.handlers[id]))
    && (forall i | 0 <= i < |s.log| :: EventOriginOk(run, s.log[i]))
    && (forall i | 0 <= i < |run| && run[i].Arrive? :: run[i].id in s.handlers)
    && (forall i, j | 0 <= i < j < |run| && run[i].Arrive? && run[j].Arrive? :: run[i].id != run[j].id)
  }

  lemma LongerOrigins(s: State, run: seq<Label>, l: Label)
    requires Origins(s, run) && (l.Arrive? ==> l.id !in s.handlers)
    ensures forall id | id in s.handlers :: OriginOk(run + [l], id, s.handlers[id])
    ensures forall i | 0 <= i < |s.log| :: EventOriginOk(run + [l], s.log[i])
    ensures forall i, j | 0 <= i < j <= |run| && (run + [l])[i].Arrive? && (run + [l])[j].Arrive? :: (run + [l])[i].id != (run + [l])[j].id
  {
    forall x | x in run ensures x in run + [l] { }
    forall i | 0 <= i < |s.log| ensures EventOriginOk(run + [l], s.log[i]) {
      assert EventOriginOk(run, s.log[i]);
    }
  }

  lemma StepOrigins(s: State, run: seq<Label>, l: Label, prefix: string)
    requires Origins(s, run) && Enabled(s, l)
    ensures Origins(Apply(s, l, prefix), run + [l])
  {
    var t, more := Apply(s, l, prefix), run + [l];
    LongerOrigins(s, run, l);
    assert more[|run|] == l;
    if !l.Crash? {
      assert l.id in s.handlers ==> OriginOk(more, l.id, s.handlers[l.id]);
      assert OriginOk(more, l.id, t.handlers[l.id]);
      assert forall id | id in t.handlers && id != l.id :: id in s.handlers && t.handlers[id] == s.handlers[id];
    }
  }

  lemma {:induction false} RunOrigins(s: State, past: seq<Label>, labels: seq<Label>, run: seq<Label>, prefix: string)
    requires Origins(s, past) && Run(s, labels, prefix).Some? && run == past + labels
    ensures Origins(Run(s, labels, prefix).value, run)
    decreases |labels|
  {
    if labels == [] {
      assert run == past;
    } else {
      Runs.Shift(past, labels, run);
      StepOrigins(s, past, labels[0], prefix);
      RunOrigins(Apply(s, labels[0], prefix), past + [labels[0]], labels[1..], run, prefix);
    }
  }

  // ---- Every answer names the step that gave it ----

  /** The reload for the request ran, and this is how it ended. */
  predicate Reloaded(run: seq<Label>, id: nat, ok: bool) {
    ReloadCmd(id, ok, true) in run || ReloadCmd(id, ok, false) in run
  }

  /** Some step of the request met an I/O error. */
  predicate Broke(run: seq<Label>, id: nat) {
    ReadFile(id, false) in run || WriteTemp(id, false) in run || Rename(id, false) in run || Answer(id, false) in run
  }

  /** The request has been answered with this status. */
  predicate AnsweredWith(s: State, id: nat, status: Status) {
    id in s.handlers && s.handlers[id] == Done(status)
  }

  /** What the run says about the request. */
  datatype Trace = Trace(reloaded: bool, reloadFailed: bool, declined: bool, broke: bool, fileRead: bool, fetched: bool, crashed: bool)

  function TraceOf(run: seq<Label>, id: nat): Trace {
    Trace(Reloaded(run, id, true), Reloaded(run, id, false), Decline(id) in run, Broke(run, id),
          ReadFile(id, true) in run, Answer(id, true) in run, Crash in run)
  }

  /** The trace after one more step. */
  function Extend(x: Trace, l: Label, id: nat): Trace {
    Trace(x.reloaded || Reloads(l, id, true), x.reloadFailed || Reloads(l, id, false), x.declined || l == Decline(id),
          x.broke || Breaks(l, id), x.fileRead || l == ReadFile(id, true), x.fetched || l == Answer(id, true), x.crashed || l == Crash)
  }

  predicate Reloads(l: Label, id: nat, ok: bool) {
    l.ReloadCmd? && l.id == id && l.ok == ok
  }

  predicate Breaks(l: Label, id: nat) {
    l == ReadFile(id, false) || l == WriteTemp(id, false) || l == Rename(id, false) || l == Answer(id, false)
  }

  lemma ReloadedGrows(run: seq<Label>, l: Label, id: nat, ok: bool)
    ensures Reloaded(run + [l], id, ok) <==> Reloaded(run, id, ok) || Reloads(l, id, ok)
  {
    Runs.InSnoc(run, l, ReloadCmd(id, ok, true));
    Runs.InSnoc(run, l, ReloadCmd(id, ok, false));
  }

  lemma BrokeGrows(run: seq<Label>, l: Label, id: nat)
    ensures Broke(run + [l], id) <==> Broke(run, id) || Breaks(l, id)
  {
    Runs.InSnoc(run, l, ReadFile(id, false));
    Runs.InSnoc(run, l, WriteTemp(id, false));
    Runs.InSnoc(run, l, Rename(id, false));
    Runs.InSnoc(run, l, Answer(id, false));
  }

  lemma TraceGrows(run: seq<Label>, l: Label, id: nat)
    ensures TraceOf(run + [l], id) == Extend(TraceOf(run, id), l, id)
  {
    ReloadedGrows(run, l, id, true);
    ReloadedGrows(run, l, id, false);
    BrokeGrows(run, l, id);
    Runs.InSnoc(run, l, Decline(id));
    Runs.InSnoc(run, l, ReadFile(id, true));
    Runs.InSnoc(run, l, Answer(id, true));
    Runs.InSnoc(run, l, Crash);
  }

  function HandlerAt(s: State, id: nat): Option<Handler> {
    if id in s.handlers then Some(s.handlers[id]) else None
  }

  /** 204 exactly after a reload that succeeded, 502 exactly after one that failed, 400
      exactly for a body that is not valid, 500 after every I/O error, and 200 only after a
      read of the file that succeeded. */
  predicate StatusFits(h: Option<Handler>, x: Trace) {
    && (h == Some(Done(NoContent)) <==> x.reloaded)
    && (h == Some(Done(BadGateway)) <==> x.reloadFailed)
    && (h == Some(Done(BadRequest)) <==> x.declined)
    && (x.broke ==> h == Some(Done(ServerError)))
    && (h.Some? && h.value.Done? && h.value.status.OK? ==> x.fetched)
    && (h == Some(Done(Aborted)) ==> x.fileRead)
    && (h == Some(Done(Lost)) ==> x.crashed)
  }

  lemma OtherFits(s: State, l: Label, id: nat, x: Trace, prefix: string)
    requires Enabled(s, l) && !l.Crash? && l.id != id && StatusFits(HandlerAt(s, id), x)
    ensures StatusFits(HandlerAt(Apply(s, l, prefix), id), Extend(x, l, id))
  {
    OtherHandler(s, l, id, prefix);
    OtherTrace(l, id, x);
  }

  lemma OtherHandler(s: State, l: Label, id: nat, prefix: string)
    requires Enabled(s, l) && !l.Crash? && l.id != id
    ensures HandlerAt(Apply(s, l, prefix), id) == HandlerAt(s, id)
  {
  }

  lemma OtherTrace(l: Label, id: nat, x: Trace)
    requires !l.Crash? && l.id != id
    ensures Extend(x, l, id) == x
  {
  }

  lemma CrashFits(s: State, id: nat, x: Trace, prefix: string)
    requires StatusFits(HandlerAt(s, id), x)
    ensures StatusFits(HandlerAt(Apply(s, Crash, prefix), id), Extend(x, Crash, id))
  {
  }

  /** The request that moves was not answered before. */
  lemma MoverFits(s: State, l: Label, x: Trace, prefix: string)
    requires Enabled(s, l) && !l.Crash? && StatusFits(HandlerAt(s, l.id), x)
    ensures StatusFits(HandlerAt(Apply(s, l, prefix), l.id), Extend(x, l, l.id))
  {
    assert !x.reloaded && !x.reloadFailed && !x.declined && !x.broke;
  }

  ghost predicate StatusOk(s: State, run: seq<Label>, id: nat) {
    StatusFits(HandlerAt(s, id), TraceOf(run, id))
  }

  ghost predicate Statuses(s: State, run: seq<Label>) {
    forall id: nat :: StatusOk(s, run, id)
  }

  lemma StepStatuses(s: State, run: seq<Label>, l: Label, prefix: string)
    requires Statuses(s, run) && Enabled(s, l)
    ensures Statuses(Apply(s, l, prefix), run + [l])
  {
    forall id: nat ensures StatusOk(Apply(s, l, prefix), run + [l], id) {
      assert StatusOk(s, run, id);
      TraceGrows(run, l, id);
      var x := TraceOf(run, id);
      if l.Crash? {
        CrashFits(s, id, x, prefix);
      } else if l.id == id {
        MoverFits(s, l, x, prefix);
      } else {
        OtherFits(s, l, id, x, prefix);
      }
    }
  }

  lemma {:induction false} RunStatuses(s: State, past: seq<Label>, labels: seq<Label>, run: seq<Label>, prefix: string)
    requires Statuses(s, past) && Run(s, labels, prefix).Some? && run == past + labels
    ensures Statuses(Run(s, labels, prefix).value, run)
    decreases |labels|
  {
    if labels == [] {
      assert run == past;
    } else {
      Runs.Shift(past, labels, run);
      StepStatuses(s, past, labels[0], prefix);
      RunStatuses(Apply(s, labels[0], prefix), past + [labels[0]], labels[1..], run, prefix);
    }
  }

  /** In every run, every status tells what happened to its request. */
  lemma StatusMeaning(doc: Json, labels: seq<Label>, prefix: string, s: State, id: nat)
    requires Run(Start(doc), labels, prefix) == Some(s)
    ensures AnsweredWith(s, id, NoContent) <==> Reloaded(labels, id, true)
    ensures AnsweredWith(s, id, BadGateway) <==> Reloaded(labels, id, false)
    ensures AnsweredWith(s, id, BadRequest) <==> Decline(id) in labels
    ensures Broke(labels, id) ==> AnsweredWith(s, id, ServerError)
    ensures id in s.handlers && s.handlers[id].Done? && s.handlers[id].status.OK? ==> Answer(id, true) in labels
    ensures AnsweredWith(s, id, Aborted) ==> ReadFile(id, true) in labels
    ensures AnsweredWith(s, id, Lost) ==> Crash in labels
  {
    RunStatuses(Start(doc), [], labels, labels, prefix);
    assert StatusOk(s, labels, id);
  }

  // ---- The events respect the order of the requests ----

  lemma StepLog(s: State, l: Label, prefix: string)
    requires Enabled(s, l)
    ensures s.log <= Apply(s, l, prefix).log
  {
  }

  lemma {:induction false} RunLog(s: State, labels: seq<Label>, prefix: string)
    requires Run(s, labels, prefix).Some?
    ensures s.log <= Run(s, labels, prefix).value.log
    decreases |labels|
  {
    if labels != [] {
      StepLog(s, labels[0], prefix);
      RunLog(Apply(s, labels[0], prefix), labels[1..], prefix);
    }
  }

  /** An answered request adds no event. */
  lemma {:induction false} DoneAddsNothing(s: State, labels: seq<Label>, prefix: string, id: nat, i: nat)
    requires Run(s, labels, prefix).Some? && id in s.handlers && s.handlers[id].Done?
    requires i < |Run(s, labels, prefix).value.log| && Run(s, labels, prefix).value.log[i].id == id
    ensures i < |s.log|
    decreases |labels|
  {
    if labels != [] {
      var t := Apply(s, labels[0], prefix);
      DoneAddsNothing(t, labels[1..], prefix, id, i);
      RunLog(t, labels[1..], prefix);
    }
  }

  /** The requests behave like one atomic register. In every interleaving, with crashes at
      any step: the log is a legal history of the register and the file is its value; every
      answer is that of the request's only event, and a refused request has none; and every
      event stems from the request that arrived under its id. */
  lemma Linearizable(doc: Json, labels: seq<Label>, prefix: string, s: State)
    requires Run(Start(doc), labels, prefix) == Some(s)
    ensures Legal(doc, s.log, prefix) && s.file == DocAfter(doc, s.log, prefix)
    ensures forall id | id in s.handlers :: AnswerOk(s.log, id, s.handlers[id])
    ensures forall i | 0 <= i < |s.log| :: EventOriginOk(labels, s.log[i])
    ensures forall i, j | 0 <= i < j < |s.log| :: s.log[i].id != s.log[j].id
  {
    RunKeeps(Start(doc), labels, doc, prefix);
    RunAnswers(Start(doc), labels, prefix);
    RunOrigins(Start(doc), [], labels, labels, prefix);
  }

  /** A request that was answered before another arrived has the earlier event. */
  lemma RealTimeOrder(doc: Json, first: seq<Label>, s: State, second: seq<Label>, t: State, prefix: string, i: nat, j: nat)
    requires Run(Start(doc), first, prefix) == Some(s) && Run(s, second, prefix) == Some(t)
    requires i < |t.log| && j < |t.log|
    requires t.log[i].id in s.handlers && s.handlers[t.log[i].id].Done?
    requires t.log[j].id !in s.handlers
    ensures i < j
  {
    DoneAddsNothing(s, second, prefix, t.log[i].id, i);
    RunAnswers(Start(doc), first, prefix);
    RunLog(s, second, prefix);
    assert forall k | 0 <= k < |s.log| :: t.log[k] == s.log[k] && s.log[k].id in s.handlers;
  }

  /** Some PUT of the run carried the body. */
  ghost predicate Arrived(labels: seq<Label>, body: Body) {
    exists id :: Arrive(id, Put(Some(body))) in labels
  }

  /** The file is the initial document or a complete patch of it with one whole PUT body. */
  lemma FileIsWholePatch(doc: Json, labels: seq<Label>, prefix: string, s: State)
    requires Run(Start(doc), labels, prefix) == Some(s)
    ensures s.file == doc || exists body :: Arrived(labels, body) && Patch(doc, body, prefix) == Doc(s.file)
  {
    Linearizable(doc, labels, prefix, s);
    LegalStored(doc, s.log, prefix);
    DocAfterIsPatch(doc, s.log, prefix);
    if s.file != doc {
      var i :| 0 <= i < |s.log| && s.log[i].Stored? && Patch(doc, s.log[i].body, prefix) == Doc(s.file);
      assert EventOriginOk(labels, s.log[i]);
      assert Arrived(labels, s.log[i].body);
    }
  }

  /** The managed set is the initial one or exactly one whole PUT body, and everything
      the registrar does not manage is conserved. */
  lemma ManagedSetWhole(doc: Json, labels: seq<Label>, prefix: string, s: State)
    requires Run(Start(doc), labels, prefix) == Some(s) && AllDecode(Unmanaged(SigsOf(doc), prefix))
    ensures s.file == doc || exists body :: Arrived(labels, body) && ManagedSigs(s.file, prefix) == Some(body)
    ensures OtherFields(s.file) == OtherFields(doc)
    ensures Unmanaged(SigsOf(s.file), prefix) == Unmanaged(SigsOf(doc), prefix)
  {
    FileIsWholePatch(doc, labels, prefix, s);
    if s.file != doc {
      var body :| Arrived(labels, body) && Patch(doc, body, prefix) == Doc(s.file);
      GetAfterPut(doc, body, prefix);
      PatchConserves(doc, body, prefix);
    }
  }

  // ---- After an acknowledgement ----

  /** No step of the sequence replaces the file. */
  ghost predicate NoRename(labels: seq<Label>) {
    forall i | 0 <= i < |labels| :: !(labels[i].Rename? && labels[i].ok)
  }

  lemma {:induction false} LoadedStays(s: State, labels: seq<Label>, prefix: string)
    requires s.view == s.file && Run(s, labels, prefix).Some? && NoRename(labels)
    ensures var t := Run(s, labels, prefix).value; t.file == s.file && t.view == s.file
    decreases |labels|
  {
    if labels != [] {
      LoadedStays(Apply(s, labels[0], prefix), labels[1..], prefix);
    }
  }

  /** Every GET that holds the mutex and can read the file answers with the body. */
  ghost predicate Answering(s: State, body: Body, prefix: string) {
    forall get | Enabled(s, Answer(get, true)) ::
      Apply(s, Answer(get, true), prefix) == Finish(s.(log := s.log + [Fetched(get, body)]), get, OK(body))
  }

  lemma GetAnswers(s: State, body: Body, prefix: string)
    requires ManagedSigs(s.file, prefix) == Some(body)
    ensures Answering(s, body, prefix)
  {
    forall get | Enabled(s, Answer(get, true))
      ensures Apply(s, Answer(get, true), prefix) == Finish(s.(log := s.log + [Fetched(get, body)]), get, OK(body))
    {
    }
  }

  /** The step answers the request with 204. */
  predicate Acknowledges(s: State, l: Label, id: nat, prefix: string) {
    Enabled(s, l) && !AnsweredWith(s, id, NoContent) && AnsweredWith(Apply(s, l, prefix), id, NoContent)
  }

  /** Only a reload that succeeded does. */
  lemma AcknowledgingStep(s: State, l: Label, id: nat, prefix: string)
    requires Acknowledges(s, l, id, prefix)
    ensures l.ReloadCmd? && l == ReloadCmd(id, true, l.reached)
  {
  }

  lemma AppliedAtReload(doc: Json, before: seq<Label>, s: State, id: nat, reached: bool, body: Body, prefix: string)
    requires Run(Start(doc), before, prefix) == Some(s) && Arrive(id, Put(Some(body))) in before
    requires Enabled(s, ReloadCmd(id, true, reached))
    ensures var u := Apply(s, ReloadCmd(id, true, reached), prefix); Patch(doc, body, prefix) == Doc(u.file) && u.view == u.file
  {
    RunKeeps(Start(doc), before, doc, prefix);
    assert HandlerOk(s.handlers[id], s, doc, prefix);
    RunOrigins(Start(doc), [], before, before, prefix);
    OneArrival(s, before, id, Put(Some(body)), Put(Some(s.handlers[id].body)));
  }

  lemma AppliedAtAnswer(doc: Json, before: seq<Label>, s: State, l: Label, id: nat, body: Body, prefix: string)
    requires Run(Start(doc), before, prefix) == Some(s) && Arrive(id, Put(Some(body))) in before
    requires Acknowledges(s, l, id, prefix)
    ensures var u := Apply(s, l, prefix); Patch(doc, body, prefix) == Doc(u.file) && u.view == u.file
  {
    AcknowledgingStep(s, l, id, prefix);
    AppliedAtReload(doc, before, s, id, l.reached, body, prefix);
  }

  /** In every run: whatever step answers a PUT with 204, from then until the next rename,
      whatever else happens, the file is the initial document patched with exactly the body
      that arrived under this id, the control service has loaded it, and every GET that can
      read the file answers with that body. */
  lemma AcknowledgedMeansApplied(doc: Json, before: seq<Label>, s: State, l: Label, id: nat,
                                 more: seq<Label>, t: State, body: Body, prefix: string)
    requires Run(Start(doc), before, prefix) == Some(s) && Arrive(id, Put(Some(body))) in before
    requires Acknowledges(s, l, id, prefix)
    requires Run(Apply(s, l, prefix), more, prefix) == Some(t) && NoRename(more)
    ensures Patch(doc, body, prefix) == Doc(t.file) && t.view == t.file
    ensures AllDecode(Unmanaged(SigsOf(doc), prefix)) ==>
              ManagedSigs(t.file, prefix) == Some(body) && Answering(t, body, prefix)
  {
    AppliedAtAnswer(doc, before, s, l, id, body, prefix);
    LoadedStays(Apply(s, l, prefix), more, prefix);
    if AllDecode(Unmanaged(SigsOf(doc), prefix)) {
      GetAfterPut(doc, body, prefix);
      GetAnswers(t, body, prefix);
    }
  }

  /** Every 204 in a state of a run was given by one of its steps. */
  lemma {:induction false} AcknowledgedSomewhere(s: State, labels: seq<Label>, id: nat, prefix: string) returns (n: nat)
    requires Run(s, labels, prefix).Some? && !AnsweredWith(s, id, NoContent)
    requires AnsweredWith(Run(s, labels, prefix).value, id, NoContent)
    ensures n < |labels| && Run(s, labels[..n], prefix).Some?
    ensures Acknowledges(Run(s, labels[..n], prefix).value, labels[n], id, prefix)
    decreases |labels|
  {
    var t := Apply(s, labels[0], prefix);
    if AnsweredWith(t, id, NoContent) {
      n := 0;
    } else {
      var k := AcknowledgedSomewhere(t, labels[1..], id, prefix);
      n := k + 1;
      assert labels[..n][0] == labels[0] && labels[..n][1..] == labels[1..][..k];
    }
  }

  lemma OneArrival(s: State, run: seq<Label>, id: nat, a: Request, b: Request)
    requires Origins(s, run) && Arrive(id, a) in run && Arrive(id, b) in run
    ensures a == b
  {
    var i :| 0 <= i < |run| && run[i] == Arrive(id, a);
    var j :| 0 <= j < |run| && run[j] == Arrive(id, b);
    assert i == j;
  }

  // ---- Every valid PUT can be served ----

  lemma RunCons(s: State, l: Label, rest: seq<Label>, prefix: string)
    requires Enabled(s, l)
    ensures Run(s, [l] + rest, prefix) == Run(Apply(s, l, prefix), rest, prefix)
  {
    assert ([l] + rest)[1..] == rest;
  }

  /** What a patch does with a body does not depend on what was stored before. */
  lemma SamePatch(doc: Json, log: seq<Event>, body: Body, prefix: string)
    requires Legal(doc, log, prefix)
    ensures Patch(DocAfter(doc, log, prefix), body, prefix) == Patch(doc, body, prefix)
  {
    LegalStored(doc, log, prefix);
    DocAfterIsPatch(doc, log, prefix);
    if i :| 0 <= i < |log| && log[i].Stored? && Patch(doc, log[i].body, prefix) == Doc(DocAfter(doc, log, prefix)) {
      PatchAbsorbs(doc, log[i].body, body, prefix);
    }
  }

  /** In every reachable state a PUT that reads the file is answered 500 if and only if the
      initial document is not one that can be patched, is aborted if and only if the body
      hits a nil map in it, and goes on otherwise, whatever was stored since. */
  lemma ReadOutcome(doc: Json, labels: seq<Label>, s: State, id: nat, body: Body, prefix: string)
    requires Run(Start(doc), labels, prefix) == Some(s) && id in s.handlers && s.handlers[id] == Entered(Put(Some(body)))
    ensures var t := Apply(s, ReadFile(id, true), prefix);
            && (AnsweredWith(t, id, ServerError) <==> Patch(doc, body, prefix).ParseError?)
            && (AnsweredWith(t, id, Aborted) <==> Patch(doc, body, prefix).Panic?)
            && (t.handlers[id].Done? <==> !Patch(doc, body, prefix).Doc?)
  {
    FilePatch(doc, labels, s, body, prefix);
    ReadStep(s, id, body, prefix);
  }

  lemma FilePatch(doc: Json, labels: seq<Label>, s: State, body: Body, prefix: string)
    requires Run(Start(doc), labels, prefix) == Some(s)
    ensures Patch(s.file, body, prefix) == Patch(doc, body, prefix)
  {
    RunKeeps(Start(doc), labels, doc, prefix);
    SamePatch(doc, s.log, body, prefix);
  }

  lemma ReadStep(s: State, id: nat, body: Body, prefix: string)
    requires id in s.handlers && s.handlers[id] == Entered(Put(Some(body)))
    ensures var t, p := Apply(s, ReadFile(id, true), prefix), Patch(s.file, body, prefix);
            && id in t.handlers
            && t.handlers[id] == (match p case Doc(d) => Computed(body, d) case ParseError => Done(ServerError) case Panic => Done(Aborted))
  {
  }

  /** The steps of a PUT that nothing fails. */
  function PutSteps(id: nat): seq<Label> {
    [Acquire(id)] + ([ReadFile(id, true)] + ([WriteTemp(id, true)] + ([Rename(id, true)] + ([ReloadCmd(id, true, true)] + []))))
  }

  lemma PutRuns(s: State, id: nat, body: Body, d: Json, prefix: string)
    requires s.lock.None? && id in s.handlers && s.handlers[id] == Waiting(Put(Some(body))) && Patch(s.file, body, prefix) == Doc(d)
    ensures Run(s, PutSteps(id), prefix)
         == Some(s.(file := d, view := d, log := s.log + [Stored(id, body)], handlers := s.handlers[id := Done(NoContent)]))
  {
    var h := s.handlers;
    var s1 := s.(lock := Some(id), handlers := h[id := Entered(Put(Some(body)))]);
    var s2 := s1.(handlers := h[id := Computed(body, d)]);
    var s3 := s1.(handlers := h[id := TempWritten(body, d)]);
    var s4 := s1.(handlers := h[id := Renamed(body)], file := d, log := s.log + [Stored(id, body)]);
    var rest4 := [ReloadCmd(id, true, true)] + [];
    var rest3 := [Rename(id, true)] + rest4;
    var rest2 := [WriteTemp(id, true)] + rest3;
    RunCons(s, Acquire(id), [ReadFile(id, true)] + rest2, prefix);
    RunCons(s1, ReadFile(id, true), rest2, prefix);
    Overwrite(h, id, Entered(Put(Some(body))), Computed(body, d));
    RunCons(s2, WriteTemp(id, true), rest3, prefix);
    Overwrite(h, id, Computed(body, d), TempWritten(body, d));
    RunCons(s3, Rename(id, true), rest4, prefix);
    Overwrite(h, id, TempWritten(body, d), Renamed(body));
    RunCons(s4, ReloadCmd(id, true, true), [], prefix);
    Overwrite(h, id, Renamed(body), Done(NoContent));
  }

  lemma Overwrite(h: map<nat, Handler>, id: nat, x: Handler, y: Handler)
    ensures h[id := x][id := y] == h[id := y]
  {
  }

  /** In every reachable state with a free mutex, a waiting PUT that no I/O error hits is
      answered 204 if the initial document can take its body, whatever was stored since. */
  lemma PutServed(doc: Json, labels: seq<Label>, s: State, id: nat, body: Body, prefix: string)
    requires Run(Start(doc), labels, prefix) == Some(s) && s.lock.None?
    requires id in s.handlers && s.handlers[id] == Waiting(Put(Some(body))) && Patch(doc, body, prefix).Doc?
    ensures Run(s, PutSteps(id), prefix).Some?
    ensures var t, d := Run(s, PutSteps(id), prefix).value, Patch(doc, body, prefix).doc;
            t == s.(file := d, view := d, log := s.log + [Stored(id, body)], handlers := s.handlers[id := Done(NoContent)])
  {
    RunKeeps(Start(doc), labels, doc, prefix);
    SamePatch(doc, s.log, body, prefix);
    PutRuns(s, id, body, Patch(doc, body, prefix).doc, prefix);
  }
}
