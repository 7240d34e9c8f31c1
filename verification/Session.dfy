/** The session manager of the editor extension (packages/vscode-typescript/src/session.ts:35-168 and
    packages/vscode-typescript/src/client.ts:202-465, 525-533) as a state machine. A step is a stretch of code
    between two awaits; promises settle, users act and settings change in any order in between. */
module Sessions {
  import opened Options
  import opened PromiseQueues

  // ---------- the state ----------

  datatype Serialized = Serialized(contributorId: string, contribution: string)

  /** A call of registerContentMappers and the disposable it returned. */
  datatype Handle = Handle(contributorId: string, contributions: seq<string>, disposed: bool)

  datatype Registration = Registration(contributorId: string, contributions: seq<string>)

  /** A session's client. live: its server may be running. received: what the running server was last told;
      failed: the last request to the running server was rejected. epoch tells one server process from the next. */
  datatype Client = Client(
    created: bool, initialized: bool, disposed: bool,
    live: bool, epoch: nat, received: seq<Serialized>, failed: bool)

  datatype Operation = Restart | Stop | Dispose

  /** The await at which the running lifecycle operation stands. */
  datatype Phase =
    | Idle
    | Quitting(op: Operation, s: nat)  // Session.stop or dispose, before it reaches the client
    | Closing(op: Operation, s: nat)   // the client's stop or dispose
    | Preparing(s: nat)                // Session.start, before it starts the client
    | Starting(s: nat)                 // the client's start
    | Finishing(s: nat)                // Session.start, after the client
    | Syncing(s: nat, ticket: nat)     // the synchronisation with that number
    | Cleaning(s: nat)                 // Session.dispose after a failed start, before it reaches the client
    | Discarding(s: nat)               // the client's dispose after a failed start
    | Unsubscribing                    // the manager's own disposables

  datatype Request = Request(s: nat, epoch: nat, contributions: seq<Serialized>)

  datatype Manager = Manager(
    sessions: seq<Client>, current: Option<nat>,
    registrations: seq<Registration>, handles: seq<Handle>,
    lifecycle: Queue<Operation>, phase: Phase,
    sync: Queue<()>, inFlight: Option<Request>,
    restarting: multiset<nat>,         // tryRestart calls that await the client
    enabled: bool, listening: bool)

  datatype Event =
    | RestartCalled | StopCalled | DisposeCalled
    | SettingChanged(on: bool)
    | DocumentOpened
    | Register(contributorId: string, contributions: seq<string>, valid: bool)
    | Unregister(handle: nat)
    | BeginOperation
    | Continue(ok: bool)               // what the running operation awaits resolves or rejects
    | BeginSync
    | SyncSettles(ok: bool)
    | RestartCommand(s: nat, samePath: bool)
    | ClientRestarted(s: nat, ok: bool)

  const FRESH := Client(false, false, false, false, 0, [], false)

  function Initial(enabled: bool): (m: Manager)
    ensures WellFormed(m)
  {
    Manager([], None, [], [], Queue([], false, 0), Idle, Queue([], false, 0), None, multiset{}, enabled, true)
  }

  predicate Known(m: Manager, s: nat) {
    s < |m.sessions|
  }

  /** The session the running operation is about. */
  function Subject(p: Phase): Option<nat> {
    match p
    case Idle => None
    case Unsubscribing => None
    case Quitting(_, s) => Some(s)
    case Closing(_, s) => Some(s)
    case Preparing(s) => Some(s)
    case Starting(s) => Some(s)
    case Finishing(s) => Some(s)
    case Syncing(s, _) => Some(s)
    case Cleaning(s) => Some(s)
    case Discarding(s) => Some(s)
  }

  predicate CleaningUp(p: Phase) {
    p.Cleaning? || p.Discarding?
  }

  /** An operation works on the current session, and cleans up one that is no longer current. */
  predicate PhaseFits(m: Manager) {
    && (Subject(m.phase).Some? ==> Known(m, Subject(m.phase).value))
    && (Subject(m.phase).Some? ==> m.current == if CleaningUp(m.phase) then None else Subject(m.phase))
    && (m.phase.Unsubscribing? ==> m.current.None?)
  }

  predicate WellFormed(m: Manager) {
    && SessionsKnown(m)
    && PhaseFits(m)
    && (m.lifecycle.running <==> !m.phase.Idle?)
  }

  predicate SessionsKnown(m: Manager) {
    && (m.current.Some? ==> Known(m, m.current.value))
    && (m.sync.running <==> m.inFlight.Some?)
    && (m.inFlight.Some? ==> Known(m, m.inFlight.value.s))
    && (forall s :: s in m.restarting ==> Known(m, s))
  }

  // ---------- registrations ----------

  function Serialize(registrations: seq<Registration>): seq<Serialized> {
    if registrations == [] then []
    else SerializeOne(registrations[0].contributorId, registrations[0].contributions) + Serialize(registrations[1..])
  }

  function SerializeOne(contributorId: string, contributions: seq<string>): seq<Serialized> {
    seq(|contributions|, i requires 0 <= i < |contributions| => Serialized(contributorId, contributions[i]))
  }

  /** How many contributions are registered in all. */
  function Count(registrations: seq<Registration>): nat {
    if registrations == [] then 0 else |registrations[0].contributions| + Count(registrations[1..])
  }

  /** Every contribution is listed once: contribution j of registration i stands behind those of the registrations
      before i and the j before it. */
  ghost predicate Lists(list: seq<Serialized>, registrations: seq<Registration>) {
    && |list| == Count(registrations)
    && forall i, j :: 0 <= i < |registrations| && 0 <= j < |registrations[i].contributions| ==>
        Listed(list, registrations, i, j)
  }

  ghost predicate Listed(list: seq<Serialized>, registrations: seq<Registration>, i: nat, j: nat)
    requires i < |registrations| && j < |registrations[i].contributions|
  {
    var r, at := registrations[i], Count(registrations[..i]) + j;
    at < |list| && list[at].contributorId == r.contributorId && list[at].contribution == r.contributions[j]
  }

  lemma CountBefore(registrations: seq<Registration>, i: nat)
    requires i < |registrations|
    ensures Count(registrations[..i + 1]) == |registrations[0].contributions| + Count(registrations[1..][..i])
  {
    assert registrations[..i + 1][1..] == registrations[1..][..i];
  }

  lemma {:induction false} SerializeLength(registrations: seq<Registration>)
    ensures |Serialize(registrations)| == Count(registrations)
  {
    if registrations != [] { SerializeLength(registrations[1..]); }
  }

  lemma {:induction false} SerializedIsListed(registrations: seq<Registration>, i: nat, j: nat)
    requires i < |registrations| && j < |registrations[i].contributions|
    ensures Listed(Serialize(registrations), registrations, i, j)
  {
    if i == 0 {
      assert registrations[..0] == [];
    } else {
      CountBefore(registrations, i - 1);
      SerializedIsListed(registrations[1..], i - 1, j);
      assert registrations[i] == registrations[1..][i - 1];
    }
  }

  lemma ListedBehind(list: seq<Serialized>, registrations: seq<Registration>, i: nat, j: nat)
    requires i + 1 < |registrations| && j < |registrations[i + 1].contributions|
    requires Listed(list, registrations, i + 1, j) && |registrations[0].contributions| <= |list|
    ensures Listed(list[|registrations[0].contributions|..], registrations[1..], i, j)
  {
    CountBefore(registrations, i);
  }

  lemma ListedFirst(list: seq<Serialized>, registrations: seq<Registration>)
    requires Lists(list, registrations) && registrations != []
    ensures |registrations[0].contributions| <= |list|
    ensures list[..|registrations[0].contributions|] ==
            SerializeOne(registrations[0].contributorId, registrations[0].contributions)
  {
    assert registrations[..0] == [];
    forall j | 0 <= j < |registrations[0].contributions|
      ensures list[j] == Serialized(registrations[0].contributorId, registrations[0].contributions[j]) {
      assert Listed(list, registrations, 0, j);
    }
  }

  lemma {:induction false} ListedIsSerialized(list: seq<Serialized>, registrations: seq<Registration>)
    requires Lists(list, registrations)
    ensures list == Serialize(registrations)
    decreases registrations
  {
    if registrations != [] {
      hide Listed, SerializeOne;
      var n, rest := |registrations[0].contributions|, registrations[1..];
      ListedFirst(list, registrations);
      forall i, j | 0 <= i < |rest| && 0 <= j < |rest[i].contributions| ensures Listed(list[n..], rest, i, j) {
        assert Listed(list, registrations, i + 1, j);
        ListedBehind(list, registrations, i, j);
      }
      ListedIsSerialized(list[n..], rest);
      assert list == list[..n] + list[n..];
    }
  }

  /** What is sent lists every contribution of every registration, in order, and it is the only list that does. */
  lemma SerializeLists(list: seq<Serialized>, registrations: seq<Registration>)
    ensures list == Serialize(registrations) <==> Lists(list, registrations)
  {
    hide Listed, Serialize;
    if list == Serialize(registrations) {
      SerializeLength(registrations);
      forall i, j | 0 <= i < |registrations| && 0 <= j < |registrations[i].contributions|
        ensures Listed(list, registrations, i, j) { SerializedIsListed(registrations, i, j); }
    }
    if Lists(list, registrations) { ListedIsSerialized(list, registrations); }
  }

  predicate Has(registrations: seq<Registration>, contributorId: string) {
    exists i :: 0 <= i < |registrations| && registrations[i].contributorId == contributorId
  }

  function Delete(registrations: seq<Registration>, contributorId: string): seq<Registration> {
    if registrations == [] then []
    else if registrations[0].contributorId == contributorId then registrations[1..]
    else [registrations[0]] + Delete(registrations[1..], contributorId)
  }

  /** What the server should be told. */
  function Desired(m: Manager): seq<Serialized> {
    if m.enabled then Serialize(m.registrations) else []
  }

  // ---------- the steps ----------

  function Sync(m: Manager): Manager {
    m.(sync := Push(m.sync, ()))
  }

  /** The initialisation event, and its listener. */
  function Fire(m: Manager): (r: Manager)
    ensures WellFormed(m) ==> WellFormed(r)
  {
    if m.listening then Sync(m) else m
  }

  function EnqueueLifecycle(m: Manager, op: Operation): (r: Manager)
    ensures WellFormed(m) ==> WellFormed(r)
  {
    m.(lifecycle := Push(m.lifecycle, op))
  }

  function NextTicket<T>(q: Queue<T>): nat {
    q.finished + (if q.running then 1 else 0) + |q.waiting|
  }

  function SetClient(m: Manager, s: nat, c: Client): (r: Manager)
    requires Known(m, s)
    ensures |r.sessions| == |m.sessions|
  {
    m.(sessions := m.sessions[s := c])
  }

  function End(m: Manager): Manager
    requires m.lifecycle.running
  {
    m.(phase := Idle, lifecycle := Finish(m.lifecycle))
  }

  function NewSession(m: Manager): Manager {
    m.(sessions := m.sessions + [FRESH], current := Some(|m.sessions|), phase := Preparing(|m.sessions|))
  }

  function Unsubscribe(m: Manager): Manager {
    m.(current := None, listening := false, phase := Unsubscribing)
  }

  /** After the current session, if there was one, has quit. */
  function Proceed(m: Manager, op: Operation): Manager
    requires m.lifecycle.running
  {
    match op
    case Restart => NewSession(m)
    case Stop => End(m.(current := None))
    case Dispose => Unsubscribe(m)
  }

  lemma ProceedFits(m: Manager, op: Operation)
    requires SessionsKnown(m) && m.lifecycle.running
    ensures WellFormed(Proceed(m, op))
  {
  }

  /** A stop or a dispose leaves no session, and after a dispose no event is heard any more. A restart leaves a new
      session behind those there were, about to start. */
  ghost predicate Leaves(m: Manager, op: Operation, r: Manager) {
    match op
    case Restart =>
      && |r.sessions| == |m.sessions| + 1 && r.current == Some(|m.sessions|) && r.phase == Preparing(|m.sessions|)
      && !r.sessions[|m.sessions|].live && !r.sessions[|m.sessions|].created
    case Stop => r.current.None? && r.phase.Idle? && !r.lifecycle.running && |r.sessions| == |m.sessions|
    case Dispose => r.current.None? && r.phase.Unsubscribing? && !r.listening && |r.sessions| == |m.sessions|
  }

  lemma ProceedLeaves(m: Manager, op: Operation)
    requires m.lifecycle.running
    ensures Leaves(m, op, Proceed(m, op)) && m.sessions <= Proceed(m, op).sessions
  {
  }

  function Begin(m: Manager): (r: Manager)
    requires WellFormed(m) && CanPop(m.lifecycle)
    ensures WellFormed(r)
  {
    hide Proceed;
    var op := m.lifecycle.waiting[0];
    var n := m.(lifecycle := Pop(m.lifecycle));
    ProceedFits(n, op);
    if m.current.Some? then n.(phase := Quitting(op, m.current.value)) else Proceed(n, op)
  }

  function CloseClient(m: Manager, op: Operation, s: nat): (r: Manager)
    requires WellFormed(m) && m.phase == Quitting(op, s)
    ensures WellFormed(r)
  {
    hide Proceed;
    var c := m.sessions[s];
    ProceedFits(m, op);
    if c.disposed then Proceed(m, op)
    else SetClient(m, s, c.(initialized := false, disposed := op.Dispose?)).(phase := Closing(op, s))
  }

  function ClientClosed(m: Manager, op: Operation, s: nat): (r: Manager)
    requires WellFormed(m) && m.phase == Closing(op, s)
    ensures WellFormed(r)
  {
    hide Proceed;
    var n := SetClient(m, s, m.sessions[s].(live := false));
    ProceedFits(n, op);
    Proceed(n, op)
  }

  function StartClient(m: Manager, s: nat): (r: Manager)
    requires WellFormed(m) && m.phase == Preparing(s)
    ensures WellFormed(r)
  {
    SetClient(m, s, m.sessions[s].(created := true, live := true)).(phase := Starting(s))
  }

  /** The client fires the event once it is initialised, and its session fires it again. */
  function ClientStarted(m: Manager, s: nat): (r: Manager)
    requires WellFormed(m) && m.phase == Starting(s)
    ensures WellFormed(r)
  {
    Fire(Fire(SetClient(m, s, m.sessions[s].(initialized := true)))).(phase := Finishing(s))
  }

  function AwaitSync(m: Manager, s: nat): (r: Manager)
    requires WellFormed(m) && m.phase == Finishing(s)
    ensures WellFormed(r)
  {
    Sync(m).(phase := Syncing(s, NextTicket(m.sync)))
  }

  function Fail(m: Manager, s: nat): (r: Manager)
    requires WellFormed(m) && Subject(m.phase) == Some(s) && !CleaningUp(m.phase)
    ensures WellFormed(r)
  {
    m.(current := if m.current == Some(s) then None else m.current, phase := Cleaning(s))
  }

  function Discard(m: Manager, s: nat): (r: Manager)
    requires WellFormed(m) && m.phase == Cleaning(s)
    ensures WellFormed(r)
  {
    var c := m.sessions[s];
    if c.disposed then End(m)
    else SetClient(m, s, c.(initialized := false, disposed := true)).(phase := Discarding(s))
  }

  function Discarded(m: Manager, s: nat): (r: Manager)
    requires WellFormed(m) && m.phase == Discarding(s)
    ensures WellFormed(r)
  {
    End(SetClient(m, s, m.sessions[s].(live := false)))
  }

  /** The running operation goes on when what it awaits resolves. */
  function Resolved(m: Manager): (r: Manager)
    requires WellFormed(m)
    ensures WellFormed(r)
  {
    match m.phase
    case Idle => m
    case Quitting(op, s) => CloseClient(m, op, s)
    case Closing(op, s) => ClientClosed(m, op, s)
    case Preparing(s) => StartClient(m, s)
    case Starting(s) => ClientStarted(m, s)
    case Finishing(s) => AwaitSync(m, s)
    case Syncing(_, _) => End(m)
    case Cleaning(s) => Discard(m, s)
    case Discarding(s) => Discarded(m, s)
    case Unsubscribing => End(m)
  }

  /** A rejection ends the operation, save that a start that fails is cleaned up first. */
  function Thrown(m: Manager): (r: Manager)
    requires WellFormed(m)
    ensures WellFormed(r)
  {
    match m.phase
    case Idle => m
    case Preparing(s) => Fail(m, s)
    case Starting(s) => Fail(m, s)
    case Finishing(s) => Fail(m, s)
    case _ => End(m)
  }

  function SyncNow(m: Manager): (r: Manager)
    requires WellFormed(m) && CanPop(m.sync)
    ensures WellFormed(r)
  {
    var n := m.(sync := Pop(m.sync));
    if m.current.None? || !m.sessions[m.current.value].initialized then n.(sync := Finish(n.sync))
    else n.(inFlight := Some(Request(m.current.value, m.sessions[m.current.value].epoch, Desired(m))))
  }

  function SettleSync(m: Manager, ok: bool): (r: Manager)
    requires WellFormed(m) && m.inFlight.Some?
    ensures WellFormed(r)
  {
    var request := m.inFlight.value;
    var c := m.sessions[request.s];
    var n := m.(inFlight := None, sync := Finish(m.sync));
    if c.epoch != request.epoch then n
    else
      SetClient(n, request.s,
                if ok then c.(received := request.contributions, failed := false) else c.(failed := true))
  }

  function TryRestart(m: Manager, s: nat, samePath: bool): (r: Manager)
    requires WellFormed(m) && Known(m, s)
    ensures WellFormed(r)
  {
    if !m.sessions[s].created then m
    else if !samePath then EnqueueLifecycle(m, Restart)
    else SetClient(m, s, m.sessions[s].(initialized := false)).(restarting := m.restarting + multiset{s})
  }

  /** With another path the command queues a restart behind what is waiting, and touches no session; with the same
      path it is the client that restarts; before the client was created nothing happens. */
  lemma RestartCommandDoes(m: Manager, s: nat, samePath: bool)
    requires WellFormed(m) && Known(m, s)
    ensures var r := TryRestart(m, s, samePath);
      && (!m.sessions[s].created ==> r == m)
      && (m.sessions[s].created && !samePath ==>
            && r.lifecycle.waiting == m.lifecycle.waiting + [Restart] && r.lifecycle.running == m.lifecycle.running
            && r.sessions == m.sessions && r.restarting == m.restarting && r.phase == m.phase)
      && (m.sessions[s].created && samePath ==>
            && s in r.restarting && !r.sessions[s].initialized && r.lifecycle == m.lifecycle
            && forall k :: 0 <= k < |m.sessions| && k != s ==> r.sessions[k] == m.sessions[k])
  {
    hide WellFormed;
  }

  /** The client's server is another process, which has been told nothing. */
  function NewProcess(c: Client): Client {
    c.(initialized := true, live := true, epoch := c.epoch + 1, received := [], failed := false)
  }

  function FinishRestart(m: Manager, s: nat, ok: bool): (r: Manager)
    requires WellFormed(m) && s in m.restarting
    ensures WellFormed(r)
  {
    var n := m.(restarting := m.restarting - multiset{s});
    var c := m.sessions[s];
    if ok then Fire(SetClient(n, s, NewProcess(c))) else n
  }

  function RegisterMappers(m: Manager, contributorId: string, contributions: seq<string>, valid: bool): (r: Manager)
    ensures WellFormed(m) ==> WellFormed(r)
  {
    if !valid || Has(m.registrations, contributorId) then m
    else Sync(m.(registrations := m.registrations + [Registration(contributorId, contributions)],
                 handles := m.handles + [Handle(contributorId, contributions, false)]))
  }

  function DisposeHandle(m: Manager, h: nat): (r: Manager)
    requires h < |m.handles|
    ensures WellFormed(m) ==> WellFormed(r)
  {
    if m.handles[h].disposed then m
    else Sync(m.(registrations := Delete(m.registrations, m.handles[h].contributorId),
                 handles := m.handles[h := m.handles[h].(disposed := true)]))
  }

  function ChangeSetting(m: Manager, on: bool): (r: Manager)
    ensures WellFormed(m) ==> WellFormed(r)
  {
    var n := m.(enabled := on);
    if m.listening && m.current.Some? then EnqueueLifecycle(n, Restart) else n
  }

  predicate CanHappen(m: Manager, e: Event) {
    match e
    case Unregister(h) => h < |m.handles|
    case BeginOperation => CanPop(m.lifecycle)
    case Continue(ok) => !m.phase.Idle? && (m.phase.Syncing? ==> ok && m.phase.ticket < m.sync.finished)
    case BeginSync => CanPop(m.sync)
    case SyncSettles(_) => m.inFlight.Some?
    case RestartCommand(s, _) => Known(m, s)
    case ClientRestarted(s, _) => s in m.restarting
    case _ => true
  }

  function Apply(m: Manager, e: Event): (r: Manager)
    requires WellFormed(m) && CanHappen(m, e)
    ensures WellFormed(r)
  {
    hide WellFormed, EnqueueLifecycle, ChangeSetting, Fire, RegisterMappers, DisposeHandle, Begin, Resolved, Thrown,
      SyncNow, SettleSync, TryRestart, FinishRestart;
    match e
    case RestartCalled => EnqueueLifecycle(m, Restart)
    case StopCalled => EnqueueLifecycle(m, Stop)
    case DisposeCalled => EnqueueLifecycle(m, Dispose)
    case SettingChanged(on) => ChangeSetting(m, on)
    case DocumentOpened => Fire(m)
    case Register(id, contributions, valid) => RegisterMappers(m, id, contributions, valid)
    case Unregister(h) => DisposeHandle(m, h)
    case BeginOperation => Begin(m)
    case Continue(ok) => if ok then Resolved(m) else Thrown(m)
    case BeginSync => SyncNow(m)
    case SyncSettles(ok) => SettleSync(m, ok)
    case RestartCommand(s, samePath) => TryRestart(m, s, samePath)
    case ClientRestarted(s, ok) => FinishRestart(m, s, ok)
  }

  /** The three ways an operation gets past the current session: there is none, it was disposed before, or its
      client has closed, and then its server is gone. */
  lemma OperationLeaves(m: Manager)
    requires WellFormed(m)
    ensures CanPop(m.lifecycle) && m.current.None? ==> Leaves(m, m.lifecycle.waiting[0], Apply(m, BeginOperation))
    ensures m.phase.Quitting? && m.sessions[m.phase.s].disposed ==> Leaves(m, m.phase.op, Apply(m, Continue(true)))
    ensures m.phase.Closing? ==>
      var r := Apply(m, Continue(true));
      Leaves(m, m.phase.op, r) && m.phase.s < |r.sessions| && !r.sessions[m.phase.s].live
  {
    hide Proceed, WellFormed;
    if CanPop(m.lifecycle) { ProceedLeaves(m.(lifecycle := Pop(m.lifecycle)), m.lifecycle.waiting[0]); }
    WellFormedIs(m);
    if m.phase.Quitting? { ProceedLeaves(m, m.phase.op); }
    if m.phase.Closing? {
      ProceedLeaves(SetClient(m, m.phase.s, m.sessions[m.phase.s].(live := false)), m.phase.op);
    }
  }

  lemma WellFormedIs(m: Manager)
    requires WellFormed(m)
    ensures m.phase.Quitting? || m.phase.Closing? ==> m.phase.s < |m.sessions| && m.lifecycle.running
  {
  }

  predicate IsRun(m: Manager, events: seq<Event>)
    requires WellFormed(m)
    decreases |events|
  {
    events == [] || (CanHappen(m, events[0]) && IsRun(Apply(m, events[0]), events[1..]))
  }

  function After(m: Manager, events: seq<Event>): (r: Manager)
    requires WellFormed(m) && IsRun(m, events)
    ensures WellFormed(r)
    decreases |events|
  {
    if events == [] then m else After(Apply(m, events[0]), events[1..])
  }
}
