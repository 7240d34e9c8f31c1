/** The session manager as the object whose methods the events call (packages/vscode-typescript/src/session.ts:35-168).
    Each method is a step of the state machine in Sessions and keeps the invariants of OneServer and Contributions. */
module SessionManagers {
  import opened Options
  import opened PromiseQueues
  import opened Sessions
  import opened OneServer
  import opened Contributions

  method SerializeContentMapperContributions(registrations: seq<Registration>) returns (result: seq<Serialized>)
    ensures result == Serialize(registrations) && Lists(result, registrations)
  {
    hide Lists;
    result := [];
    for i := 0 to |registrations|
      invariant result + Serialize(registrations[i..]) == Serialize(registrations)
    {
      assert registrations[i..][1..] == registrations[i + 1..];
      hide SerializeOne;
      result := PushAll(result, registrations[i].contributorId, registrations[i].contributions);
    }
    SerializeLists(result, registrations);
  }

  method PushAll(before: seq<Serialized>, contributorId: string, contributions: seq<string>)
    returns (result: seq<Serialized>)
    ensures result == before + SerializeOne(contributorId, contributions)
  {
    result := before;
    for i := 0 to |contributions|
      invariant result == before + SerializeOne(contributorId, contributions)[..i]
    {
      result := result + [Serialized(contributorId, contributions[i])];
    }
  }

  /** What every step keeps, in view of the past, and as long as no dispose failed and no restart command overlapped
      a lifecycle operation (`orderly`). */
  ghost predicate Consistent(m: Manager, past: Past, orderly: bool) {
    && WellFormed(m) && RegistrationsMatch(m) && SyncInvariant(m, past)
    && (orderly ==> LiveInvariant(m))
  }

  lemma StepKeepsConsistent(m: Manager, e: Event, past: Past, orderly: bool)
    requires Consistent(m, past, orderly) && CanHappen(m, e)
    ensures Consistent(Apply(m, e), Note(past, m, e), orderly && !DisposeFails(m, e) && !Overlaps(m, e))
  {
    hide WellFormed, RegistrationsMatch, SyncInvariant, LiveInvariant, Apply, Note, DisposeFails, Overlaps, CanHappen;
    StepKeepsRegistrations(m, e);
    StepKeepsSync(m, past, e);
    if orderly && !DisposeFails(m, e) && !Overlaps(m, e) { StepKeepsLive(m, e); }
  }

  lemma BeginKeeps(m: Manager, past: Past, orderly: bool)
    requires Consistent(m, past, orderly) && CanPop(m.lifecycle)
    ensures WellFormed(m) && Consistent(Begin(m), past, orderly && m.restarting == multiset{})
  {
    hide WellFormed, RegistrationsMatch, SyncInvariant, LiveInvariant, EnqueueLifecycle, ChangeSetting, Fire,
      RegisterMappers, DisposeHandle, Begin, Resolved, Thrown, SyncNow, SettleSync, TryRestart, FinishRestart;
    StepKeepsConsistent(m, BeginOperation, past, orderly);
  }

  lemma Underway(m: Manager, ok: bool)
    requires WellFormed(m) && CanHappen(m, Continue(ok))
    ensures m.lifecycle.running && !m.phase.Idle?
  {
  }

  lemma ResolvedKeeps(m: Manager, past: Past, orderly: bool)
    requires Consistent(m, past, orderly) && CanHappen(m, Continue(true))
    ensures WellFormed(m) && Consistent(Resolved(m), past, orderly)
    ensures m.lifecycle.running && !m.phase.Idle?
  {
    hide WellFormed, RegistrationsMatch, SyncInvariant, LiveInvariant, EnqueueLifecycle, ChangeSetting, Fire,
      RegisterMappers, DisposeHandle, Begin, Resolved, Thrown, SyncNow, SettleSync, TryRestart, FinishRestart;
    StepKeepsConsistent(m, Continue(true), past, orderly);
    Underway(m, true);
  }

  lemma ThrownKeeps(m: Manager, past: Past, orderly: bool)
    requires Consistent(m, past, orderly) && CanHappen(m, Continue(false))
    ensures WellFormed(m) && m.lifecycle.running && !m.phase.Idle?
    ensures Consistent(Thrown(m), Note(past, m, Continue(false)), orderly && !DisposeFails(m, Continue(false)))
  {
    hide WellFormed, RegistrationsMatch, SyncInvariant, LiveInvariant, EnqueueLifecycle, ChangeSetting, Fire,
      RegisterMappers, DisposeHandle, Begin, Resolved, Thrown, SyncNow, SettleSync, TryRestart, FinishRestart;
    StepKeepsConsistent(m, Continue(false), past, orderly);
    Underway(m, false);
  }

  lemma SyncKeeps(m: Manager, past: Past, orderly: bool)
    requires Consistent(m, past, orderly) && CanPop(m.sync)
    ensures WellFormed(m) && Consistent(SyncNow(m), Note(past, m, BeginSync), orderly)
  {
    hide WellFormed, RegistrationsMatch, SyncInvariant, LiveInvariant, EnqueueLifecycle, ChangeSetting, Fire,
      RegisterMappers, DisposeHandle, Begin, Resolved, Thrown, SyncNow, SettleSync, TryRestart, FinishRestart;
    StepKeepsConsistent(m, BeginSync, past, orderly);
  }

  lemma SettleKeeps(m: Manager, ok: bool, past: Past, orderly: bool)
    requires Consistent(m, past, orderly) && m.inFlight.Some?
    ensures WellFormed(m) && Consistent(SettleSync(m, ok), past, orderly)
  {
    hide WellFormed, RegistrationsMatch, SyncInvariant, LiveInvariant, EnqueueLifecycle, ChangeSetting, Fire,
      RegisterMappers, DisposeHandle, Begin, Resolved, Thrown, SyncNow, SettleSync, TryRestart, FinishRestart;
    StepKeepsConsistent(m, SyncSettles(ok), past, orderly);
  }

  lemma RegisterKeeps(m: Manager, id: string, contributions: seq<string>, valid: bool, past: Past, orderly: bool)
    requires Consistent(m, past, orderly)
    ensures Consistent(RegisterMappers(m, id, contributions, valid), past, orderly)
  {
    hide WellFormed, RegistrationsMatch, SyncInvariant, LiveInvariant, RegisterMappers;
    StepKeepsConsistent(m, Register(id, contributions, valid), past, orderly);
  }

  lemma UnregisterKeeps(m: Manager, handle: nat, past: Past, orderly: bool)
    requires Consistent(m, past, orderly) && handle < |m.handles|
    ensures Consistent(DisposeHandle(m, handle), past, orderly)
  {
    hide WellFormed, RegistrationsMatch, SyncInvariant, LiveInvariant, DisposeHandle;
    StepKeepsConsistent(m, Unregister(handle), past, orderly);
  }

  lemma CommandKeeps(m: Manager, s: nat, samePath: bool, past: Past, orderly: bool)
    requires Consistent(m, past, orderly) && Known(m, s)
    ensures WellFormed(m)
    ensures Consistent(TryRestart(m, s, samePath), past, orderly && !Overlaps(m, RestartCommand(s, samePath)))
  {
    hide WellFormed, RegistrationsMatch, SyncInvariant, LiveInvariant, Overlaps, TryRestart;
    StepKeepsConsistent(m, RestartCommand(s, samePath), past, orderly);
  }

  lemma RestartKeeps(m: Manager, s: nat, ok: bool, past: Past, orderly: bool)
    requires Consistent(m, past, orderly) && s in m.restarting
    ensures WellFormed(m) && Consistent(FinishRestart(m, s, ok), past, orderly)
    ensures Known(m, s)
  {
    assert Known(m, s);
    hide WellFormed, RegistrationsMatch, SyncInvariant, LiveInvariant, EnqueueLifecycle, ChangeSetting, Fire,
      RegisterMappers, DisposeHandle, Begin, Resolved, Thrown, SyncNow, SettleSync, TryRestart, FinishRestart;
    StepKeepsConsistent(m, ClientRestarted(s, ok), past, orderly);
  }

  class SessionManager {
    ghost var past: Past
    ghost var orderly: bool
    var currentSession: Option<nat>
    var contentMapperRegistrations: seq<Registration>
    var lifecycleOperation: Queue<Operation>
    var contentMapperSyncOperation: Queue<()>
    var sessions: seq<Client>
    var disposables: seq<Handle>
    var awaiting: Phase
    var request: Option<Request>
    var restarting: multiset<nat>
    var contentMappersEnabled: bool
    var listening: bool

    ghost function State(): Manager
      reads this
    {
      Manager(sessions, currentSession, contentMapperRegistrations, disposables, lifecycleOperation, awaiting,
              contentMapperSyncOperation, request, restarting, contentMappersEnabled, listening)
    }

    ghost predicate Valid()
      reads this
    {
      Consistent(State(), past, orderly)
    }

    /** The registrations whose disposables have not been used. */
    ghost function Held(): seq<Registration>
      reads this
    {
      Active(disposables)
    }

    ghost predicate OneServerLives()
      reads this
    {
      forall i, j :: 0 <= i < |sessions| && 0 <= j < |sessions| && sessions[i].live && sessions[j].live ==> i == j
    }

    /** What the invariants are for. */
    lemma Conclusions()
      requires Valid()
      ensures orderly ==> OneServerLives()
      ensures Quiet(State()) ==> (IsTold(State()) <==> SettingDelivered(State(), past))
      ensures Quiet(State()) && !RestartPending(State()) && !past.givenUp ==> IsTold(State())
    {
      if Quiet(State()) { QuietIsTold(State(), past); }
      hide Serialize, Active, Quiet, IsTold, RestartPending, SyncInvariant, RegistrationsMatch, WellFormed;
    }

    constructor (enabled: bool)
      ensures Valid() && past == NO_PAST && orderly && State() == Initial(enabled)
    {
      past, orderly := NO_PAST, true;
      currentSession, sessions := None, [];
      contentMapperRegistrations, disposables := [], [];
      lifecycleOperation, contentMapperSyncOperation := Queue([], false, 0), Queue([], false, 0);
      awaiting, request := Idle, None;
      restarting, contentMappersEnabled, listening := multiset{}, enabled, true;
    }

    method EnqueueLifecycleOperation(op: Operation)
      modifies this
      ensures past == old(past) && orderly == old(orderly)
      ensures State() == EnqueueLifecycle(old(State()), op)
    {
      lifecycleOperation := Push(lifecycleOperation, op);
    }

    method SyncContentMapperContributions() returns (ticket: nat)
      modifies this
      ensures past == old(past) && orderly == old(orderly)
      ensures State() == Sync(old(State())) && ticket == NextTicket(old(contentMapperSyncOperation))
    {
      ticket := NextTicket(contentMapperSyncOperation);
      contentMapperSyncOperation := Push(contentMapperSyncOperation, ());
    }

    method OnInitialized()
      modifies this
      ensures past == old(past) && orderly == old(orderly)
      ensures State() == Fire(old(State()))
    {
      if listening {
        var _ := SyncContentMapperContributions();
      }
    }

    method OnDidChangeConfiguration(on: bool)
      requires Valid()
      modifies this
      ensures Valid() && past == old(past) && orderly == old(orderly)
      ensures State() == ChangeSetting(old(State()), on)
    {
      hide Consistent;
      StepKeepsConsistent(State(), SettingChanged(on), past, orderly);
      contentMappersEnabled := on;
      if listening && currentSession.Some? {
        EnqueueLifecycleOperation(Restart);
      }
    }

    /** A contributor that holds no registration gets one, and the disposable to give it up; anything else is
        refused and changes nothing. */
    method RegisterContentMappers(contributorId: string, contributions: seq<string>, valid: bool)
      returns (handle: Option<nat>)
      requires Valid()
      modifies this
      ensures Valid() && past == old(past) && orderly == old(orderly)
      ensures State() == RegisterMappers(old(State()), contributorId, contributions, valid)
      ensures handle.Some? <==> valid && !Has(old(Held()), contributorId)
      ensures handle.Some? ==> handle.value < |disposables| && !disposables[handle.value].disposed
      ensures handle.Some? ==> Held() == old(Held()) + [Registration(contributorId, contributions)]
      ensures handle.Some? ==> contentMapperSyncOperation.waiting != []
      ensures handle.None? ==> State() == old(State())
    {
      hide Consistent, WellFormed, Active, Has;
      HeldAre();
      RegisterKeeps(State(), contributorId, contributions, valid, past, orderly);
      if !valid {
        return None;
      }
      if Has(contentMapperRegistrations, contributorId) {
        return None;
      }
      contentMapperRegistrations := contentMapperRegistrations + [Registration(contributorId, contributions)];
      handle := Some(|disposables|);
      disposables := disposables + [Handle(contributorId, contributions, false)];
      var _ := SyncContentMapperContributions();
      HeldAre();
    }

    lemma HeldAre()
      requires Valid()
      ensures Held() == contentMapperRegistrations && Distinct(Held())
    {
      hide WellFormed, SyncInvariant, LiveInvariant, Active, Distinct;
    }

    /** The registration is given up, once, and its contributor may register again. */
    method DisposeRegistration(handle: nat)
      requires Valid() && handle < |disposables|
      modifies this
      ensures Valid() && past == old(past) && orderly == old(orderly)
      ensures State() == DisposeHandle(old(State()), handle)
      ensures old(disposables[handle]).disposed ==> State() == old(State())
      ensures !old(disposables[handle]).disposed ==>
        Held() == Active(old(disposables)[handle := old(disposables[handle]).(disposed := true)])
      ensures !old(disposables[handle]).disposed ==> !Has(Held(), old(disposables[handle]).contributorId)
      ensures !old(disposables[handle]).disposed ==> contentMapperSyncOperation.waiting != []
    {
      hide Consistent, WellFormed, Active, Distinct, Has, Delete;
      HeldAre();
      UnregisterKeeps(State(), handle, past, orderly);
      if !disposables[handle].disposed { DeleteRemoves(Held(), disposables[handle].contributorId); }
      if disposables[handle].disposed {
        return;
      }
      disposables := disposables[handle := disposables[handle].(disposed := true)];
      contentMapperRegistrations := Delete(contentMapperRegistrations, disposables[handle].contributorId);
      var _ := SyncContentMapperContributions();
      HeldAre();
    }

    /** The next operation runs to its first await. */
    method BeginOperation()
      requires Valid() && CanPop(lifecycleOperation)
      modifies this
      ensures Valid() && past == old(past) && orderly == (old(orderly) && old(restarting) == multiset{})
      ensures State() == Begin(old(State()))
    {
      hide Consistent, WellFormed;
      BeginKeeps(State(), past, orderly);
      orderly := orderly && restarting == multiset{};
      var op := lifecycleOperation.waiting[0];
      lifecycleOperation := Pop(lifecycleOperation);
      if currentSession.Some? {
        awaiting := Quitting(op, currentSession.value);
      } else {
        AfterQuit(op);
      }
    }

    method AfterQuit(op: Operation)
      requires lifecycleOperation.running
      modifies this
      ensures past == old(past) && orderly == old(orderly)
      ensures State() == Proceed(old(State()), op)
    {
      match op
      case Restart =>
        awaiting := Preparing(|sessions|);
        currentSession := Some(|sessions|);
        sessions := sessions + [FRESH];
      case Stop =>
        currentSession := None;
        EndOperation();
      case Dispose =>
        currentSession := None;
        listening := false;
        awaiting := Unsubscribing;
    }

    method EndOperation()
      requires lifecycleOperation.running
      modifies this
      ensures past == old(past) && orderly == old(orderly)
      ensures State() == End(old(State()))
    {
      awaiting := Idle;
      lifecycleOperation := Finish(lifecycleOperation);
    }

    method StopClient(op: Operation, s: nat)
      requires WellFormed(State()) && awaiting == Quitting(op, s)
      modifies this
      ensures past == old(past) && orderly == old(orderly)
      ensures State() == CloseClient(old(State()), op, s)
    {
      if sessions[s].disposed {
        AfterQuit(op);
        return;
      }
      if op.Dispose? {
        sessions := sessions[s := sessions[s].(disposed := true)];
      }
      sessions := sessions[s := sessions[s].(initialized := false)];
      awaiting := Closing(op, s);
    }

    /** What the running operation awaits has resolved. */
    method OnResolved()
      requires Valid() && CanHappen(State(), Continue(true))
      modifies this
      ensures Valid() && past == old(past) && orderly == old(orderly)
      ensures State() == Resolved(old(State()))
    {
      hide Consistent, WellFormed, CanHappen, End, CloseClient, ClientClosed, StartClient, ClientStarted, AwaitSync,
        Discard, Discarded;
      ResolvedKeeps(State(), past, orderly);
      match awaiting
      case Quitting(op, s) => StopClient(op, s);
      case Closing(op, s) => OnClosed(op, s);
      case Preparing(s) => StartSession(s);
      case Starting(s) => OnStarted(s);
      case Finishing(s) => AwaitSynchronization(s);
      case Syncing(_, _) => EndOperation();
      case Cleaning(s) => DisposeClient(s);
      case Discarding(s) => OnDiscarded(s);
      case Unsubscribing => EndOperation();
    }

    method OnClosed(op: Operation, s: nat)
      requires WellFormed(State()) && awaiting == Closing(op, s)
      modifies this
      ensures past == old(past) && orderly == old(orderly)
      ensures State() == ClientClosed(old(State()), op, s)
    {
      sessions := sessions[s := sessions[s].(live := false)];
      AfterQuit(op);
    }

    method StartSession(s: nat)
      requires WellFormed(State()) && awaiting == Preparing(s)
      modifies this
      ensures past == old(past) && orderly == old(orderly)
      ensures State() == StartClient(old(State()), s)
    {
      sessions := sessions[s := sessions[s].(created := true, live := true)];
      awaiting := Starting(s);
    }

    method AwaitSynchronization(s: nat)
      requires WellFormed(State()) && awaiting == Finishing(s)
      modifies this
      ensures past == old(past) && orderly == old(orderly)
      ensures State() == AwaitSync(old(State()), s)
    {
      var ticket := SyncContentMapperContributions();
      awaiting := Syncing(s, ticket);
    }

    method OnDiscarded(s: nat)
      requires WellFormed(State()) && awaiting == Discarding(s)
      modifies this
      ensures past == old(past) && orderly == old(orderly)
      ensures State() == Discarded(old(State()), s)
    {
      sessions := sessions[s := sessions[s].(live := false)];
      EndOperation();
    }

    method DisposeClient(s: nat)
      requires WellFormed(State()) && awaiting == Cleaning(s)
      modifies this
      ensures past == old(past) && orderly == old(orderly)
      ensures State() == Discard(old(State()), s)
    {
      if sessions[s].disposed {
        EndOperation();
        return;
      }
      sessions := sessions[s := sessions[s].(initialized := false, disposed := true)];
      awaiting := Discarding(s);
    }

    method OnStarted(s: nat)
      requires WellFormed(State()) && awaiting == Starting(s)
      modifies this
      ensures past == old(past) && orderly == old(orderly)
      ensures State() == ClientStarted(old(State()), s)
    {
      assert s < |sessions|;
      hide WellFormed;
      sessions := sessions[s := sessions[s].(initialized := true)];
      FireTwice(s);
      awaiting := Finishing(s);
    }

    /** The client fires the event, and its session fires it again. */
    method FireTwice(s: nat)
      requires s < |sessions| && sessions[s].initialized
      modifies this
      ensures past == old(past) && orderly == old(orderly)
      ensures State() == Fire(Fire(old(State())))
    {
      OnInitialized();
      if sessions[s].initialized {
        OnInitialized();
      }
    }

    method OnRejected()
      requires Valid() && CanHappen(State(), Continue(false))
      modifies this
      ensures Valid() && past == Note(old(past), old(State()), Continue(false))
      ensures orderly == (old(orderly) && !DisposeFails(old(State()), Continue(false)))
      ensures State() == Thrown(old(State()))
    {
      hide Consistent, WellFormed, CanHappen, Note, DisposeFails, Fail, End;
      ThrownKeeps(State(), past, orderly);
      past := Note(past, State(), Continue(false));
      orderly := orderly && !DisposeFails(State(), Continue(false));
      if awaiting.Preparing? || awaiting.Starting? || awaiting.Finishing? {
        OnFailedStart(awaiting.s);
      } else {
        EndOperation();
      }
    }

    method OnFailedStart(session: nat)
      requires WellFormed(State()) && Subject(awaiting) == Some(session) && !CleaningUp(awaiting)
      modifies this
      ensures past == old(past) && orderly == old(orderly)
      ensures State() == Fail(old(State()), session)
    {
      hide WellFormed;
      if currentSession == Some(session) {
        currentSession := None;
      }
      awaiting := Cleaning(session);
    }

    /** An initialised current session's server is sent the contributions of the registrations that are held, or
        none while the setting is off; without one nothing is sent. */
    method SyncContentMapperContributionsNow()
      requires Valid() && CanPop(contentMapperSyncOperation)
      modifies this
      ensures Valid() && orderly == old(orderly)
      ensures past == Note(old(past), old(State()), BeginSync)
      ensures past == if request.Some? then Past(contentMappersEnabled, false) else old(past)
      ensures State() == SyncNow(old(State()))
      ensures request.Some? <==>
        currentSession.Some? && currentSession.value < |sessions| && sessions[currentSession.value].initialized
      ensures request.Some? ==> Some(request.value.s) == currentSession
      ensures request.Some? ==> request.value.contributions == if contentMappersEnabled then Serialize(Held()) else []
    {
      HeldAre();
      hide Consistent, Serialize, Active;
      SyncKeeps(State(), past, orderly);
      past := Note(past, State(), BeginSync);
      contentMapperSyncOperation := Pop(contentMapperSyncOperation);
      if currentSession.None? || !sessions[currentSession.value].initialized {
        contentMapperSyncOperation := Finish(contentMapperSyncOperation);
        return;
      }
      var contributions := SerializeContentMapperContributions(contentMapperRegistrations);
      request := Some(Request(currentSession.value, sessions[currentSession.value].epoch,
                              if contentMappersEnabled then contributions else []));
    }

    method OnSyncSettled(ok: bool)
      requires Valid() && request.Some?
      modifies this
      ensures Valid() && past == old(past) && orderly == old(orderly)
      ensures State() == SettleSync(old(State()), ok)
    {
      hide Consistent;
      SettleKeeps(State(), ok, past, orderly);
      var s, c := request.value.s, sessions[request.value.s];
      if c.epoch == request.value.epoch {
        c := if ok then c.(received := request.value.contributions, failed := false) else c.(failed := true);
        sessions := sessions[s := c];
      }
      request := None;
      contentMapperSyncOperation := Finish(contentMapperSyncOperation);
    }

    method TryRestartClient(s: nat, samePath: bool)
      requires Valid() && s < |sessions|
      modifies this
      ensures Valid() && past == old(past)
      ensures orderly == (old(orderly) && !Overlaps(old(State()), RestartCommand(s, samePath)))
      ensures State() == TryRestart(old(State()), s, samePath)
    {
      hide Consistent, WellFormed, Overlaps, DisposeFails;
      CommandKeeps(State(), s, samePath, past, orderly);
      orderly := orderly && !Overlaps(State(), RestartCommand(s, samePath));
      if !sessions[s].created {
        return;
      }
      if !samePath {
        EnqueueLifecycleOperation(Restart);
        return;
      }
      sessions := sessions[s := sessions[s].(initialized := false)];
      restarting := restarting + multiset{s};
    }

    method OnClientRestarted(s: nat, ok: bool)
      requires Valid() && s in restarting
      modifies this
      ensures Valid() && past == old(past) && orderly == old(orderly)
      ensures State() == FinishRestart(old(State()), s, ok)
    {
      hide Consistent, WellFormed;
      RestartKeeps(State(), s, ok, past, orderly);
      restarting := restarting - multiset{s};
      if ok {
        RestartedClient(s);
        OnInitialized();
      }
    }

    method RestartedClient(s: nat)
      requires s < |sessions|
      modifies this`sessions
      ensures sessions == old(sessions)[s := NewProcess(old(sessions)[s])]
    {
      var epoch := sessions[s].epoch + 1;
      sessions := sessions[s := sessions[s].(live := true, epoch := epoch, received := [], failed := false)];
      sessions := sessions[s := sessions[s].(initialized := true)];
    }

    method Dispatch(e: Event)
      requires Valid() && CanHappen(State(), e)
      modifies this
      ensures Valid() && State() == Apply(old(State()), e)
      ensures past == Note(old(past), old(State()), e)
      ensures orderly == (old(orderly) && !DisposeFails(old(State()), e) && !Overlaps(old(State()), e))
    {
      hide Consistent, WellFormed, Begin, Resolved, Thrown, SyncNow, SettleSync, TryRestart, FinishRestart,
        RegisterMappers, DisposeHandle;
      StepKeepsConsistent(State(), e, past, orderly);
      match e
      case RestartCalled => EnqueueLifecycleOperation(Restart);
      case StopCalled => EnqueueLifecycleOperation(Stop);
      case DisposeCalled => EnqueueLifecycleOperation(Dispose);
      case SettingChanged(on) => OnDidChangeConfiguration(on);
      case DocumentOpened => OnInitialized();
      case Register(id, contributions, valid) => var _ := RegisterContentMappers(id, contributions, valid);
      case Unregister(h) => DisposeRegistration(h);
      case BeginOperation => BeginOperation();
      case Continue(ok) => if ok { OnResolved(); } else { OnRejected(); }
      case BeginSync => SyncContentMapperContributionsNow();
      case SyncSettles(ok) => OnSyncSettled(ok);
      case RestartCommand(s, samePath) => TryRestartClient(s, samePath);
      case ClientRestarted(s, ok) => OnClientRestarted(s, ok);
    }
  }

  /** Whatever happens to a new manager, in whatever order: no two servers live while no dispose fails and the
      restart command keeps clear of the lifecycle operations; and once it is quiet its server has been told what is
      registered exactly when the setting is the one last sent, or makes no difference. */
  method Drive(enabled: bool, events: seq<Event>) returns (manager: SessionManager)
    requires IsRun(Initial(enabled), events)
    ensures fresh(manager) && manager.Valid() && manager.State() == After(Initial(enabled), events)
    ensures manager.past == PastAfter(NO_PAST, Initial(enabled), events)
    ensures manager.orderly == Orderly(Initial(enabled), events)
    ensures manager.orderly ==> manager.OneServerLives()
    ensures Quiet(manager.State()) ==> (IsTold(manager.State()) <==> SettingDelivered(manager.State(), manager.past))
    ensures Quiet(manager.State()) && !RestartPending(manager.State()) && !manager.past.givenUp ==>
      IsTold(manager.State())
  {
    hide Apply, Consistent, CanHappen, Note, DisposeFails, Overlaps, Quiet, IsTold, SettingDelivered, RestartPending;
    manager := new SessionManager(enabled);
    for i := 0 to |events|
      invariant fresh(manager) && manager.Valid()
      invariant WellFormed(manager.State()) && IsRun(manager.State(), events[i..])
      invariant After(manager.State(), events[i..]) == After(Initial(enabled), events)
      invariant PastAfter(manager.past, manager.State(), events[i..]) == PastAfter(NO_PAST, Initial(enabled), events)
      invariant Orderly(Initial(enabled), events) == (manager.orderly && Orderly(manager.State(), events[i..]))
    {
      assert events[i..][0] == events[i] && events[i..][1..] == events[i + 1..];
      manager.Dispatch(events[i]);
    }
    manager.Conclusions();
  }
}
