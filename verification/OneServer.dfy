/** No two servers live at the same time (packages/vscode-typescript/src/session.ts:72-107 and
    packages/vscode-typescript/src/client.ts:389-465). */
module OneServer {
  import opened Options
  import opened PromiseQueues
  import opened Sessions

  predicate AtMostOneLive(m: Manager) {
    forall i, j :: 0 <= i < |m.sessions| && 0 <= j < |m.sessions| && m.sessions[i].live && m.sessions[j].live ==> i == j
  }

  /** The dispose of a client whose server lives is rejected, or never reached after a failed start. */
  predicate DisposeFails(m: Manager, e: Event) {
    && e == Continue(false)
    && (m.phase.Cleaning? || m.phase.Discarding? || (m.phase.Closing? && m.phase.op.Dispose?))
    && Known(m, m.phase.s) && m.sessions[m.phase.s].live
  }

  /** The restart command and a lifecycle operation, which do not share a queue, overlap. The command keeps clear
      if it is for the current session and no operation runs, or one that only waits for a synchronisation. */
  predicate Overlaps(m: Manager, e: Event) {
    || (e.BeginOperation? && m.restarting != multiset{})
    || (e.RestartCommand? && e.samePath && Known(m, e.s) && m.sessions[e.s].created
        && !(m.current == Some(e.s) && (m.phase.Idle? || m.phase.Syncing?)))
  }

  predicate Orderly(m: Manager, events: seq<Event>)
    requires WellFormed(m) && IsRun(m, events)
    decreases |events|
  {
    events == [] ||
    (!DisposeFails(m, events[0]) && !Overlaps(m, events[0]) && Orderly(Apply(m, events[0]), events[1..]))
  }

  /** Only the current session, or one that is being cleaned up while there is no current one, is live. */
  predicate LiveInvariant(m: Manager) {
    && (forall i :: 0 <= i < |m.sessions| && m.sessions[i].live ==>
         (if CleaningUp(m.phase) then Subject(m.phase) else m.current) == Some(i))
    && (m.current.Some? && Known(m, m.current.value) ==>
         && (m.sessions[m.current.value].disposed <==> m.phase.Closing? && m.phase.op.Dispose?)
         && (if m.phase.Preparing? then !m.sessions[m.current.value].created
             else m.sessions[m.current.value].created && m.sessions[m.current.value].live))
    && (m.phase.Cleaning? && Known(m, m.phase.s) ==> !m.sessions[m.phase.s].disposed)
    && (forall s :: s in m.restarting ==> (m.phase.Idle? || m.phase.Syncing?) && m.current == Some(s))
  }

  lemma ProceedIsLive(m: Manager, op: Operation)
    requires SessionsKnown(m) && m.lifecycle.running && m.restarting == multiset{}
    requires forall i :: 0 <= i < |m.sessions| ==> !m.sessions[i].live
    ensures LiveInvariant(Proceed(m, op))
  {
  }

  lemma BeginKeepsLive(m: Manager)
    requires WellFormed(m) && CanPop(m.lifecycle) && LiveInvariant(m) && m.restarting == multiset{}
    ensures LiveInvariant(Begin(m))
  {
    hide Proceed;
    if m.current.None? { ProceedIsLive(m.(lifecycle := Pop(m.lifecycle)), m.lifecycle.waiting[0]); }
  }

  lemma CloseKeepsLive(m: Manager, op: Operation, s: nat)
    requires WellFormed(m) && LiveInvariant(m) && m.phase == Quitting(op, s)
    ensures LiveInvariant(CloseClient(m, op, s))
  {
    hide Proceed;
  }

  lemma ClosedKeepsLive(m: Manager, op: Operation, s: nat)
    requires WellFormed(m) && LiveInvariant(m) && m.phase == Closing(op, s)
    ensures LiveInvariant(ClientClosed(m, op, s))
  {
    hide Proceed;
    ProceedIsLive(SetClient(m, s, m.sessions[s].(live := false)), op);
  }

  lemma StartKeepsLive(m: Manager, s: nat)
    requires WellFormed(m) && LiveInvariant(m)
    ensures m.phase == Preparing(s) ==> LiveInvariant(StartClient(m, s))
    ensures m.phase == Starting(s) ==> LiveInvariant(ClientStarted(m, s))
    ensures m.phase == Finishing(s) ==> LiveInvariant(AwaitSync(m, s))
    ensures m.phase in {Preparing(s), Starting(s), Finishing(s)} ==> LiveInvariant(Fail(m, s))
  {
  }

  lemma DiscardKeepsLive(m: Manager, s: nat)
    requires WellFormed(m) && LiveInvariant(m)
    ensures m.phase == Cleaning(s) ==> LiveInvariant(Discard(m, s))
    ensures m.phase == Discarding(s) ==> LiveInvariant(Discarded(m, s))
  {
  }

  lemma EndKeepsLive(m: Manager)
    requires WellFormed(m) && LiveInvariant(m) && !DisposeFails(m, Continue(false))
    requires !m.phase.Idle? && !m.phase.Preparing?
    ensures LiveInvariant(End(m))
  {
  }

  lemma ResolvedKeepsLive(m: Manager)
    requires WellFormed(m) && !m.phase.Idle? && LiveInvariant(m)
    ensures LiveInvariant(Resolved(m))
  {
    hide LiveInvariant, End, CloseClient, ClientClosed, StartClient, ClientStarted, AwaitSync, Discard, Discarded;
    match m.phase
    case Idle =>
    case Quitting(op, s) => CloseKeepsLive(m, op, s);
    case Closing(op, s) => ClosedKeepsLive(m, op, s);
    case Preparing(s) => StartKeepsLive(m, s);
    case Starting(s) => StartKeepsLive(m, s);
    case Finishing(s) => StartKeepsLive(m, s);
    case Syncing(_, _) => EndKeepsLive(m);
    case Cleaning(s) => DiscardKeepsLive(m, s);
    case Discarding(s) => DiscardKeepsLive(m, s);
    case Unsubscribing => EndKeepsLive(m);
  }

  lemma ThrownKeepsLive(m: Manager)
    requires WellFormed(m) && !m.phase.Idle? && LiveInvariant(m) && !DisposeFails(m, Continue(false))
    ensures LiveInvariant(Thrown(m))
  {
    hide LiveInvariant, End, Fail;
    match m.phase
    case Idle =>
    case Preparing(s) => StartKeepsLive(m, s);
    case Starting(s) => StartKeepsLive(m, s);
    case Finishing(s) => StartKeepsLive(m, s);
    case _ => EndKeepsLive(m);
  }

  lemma SyncKeepsLive(m: Manager)
    requires WellFormed(m) && LiveInvariant(m) && CanPop(m.sync)
    ensures LiveInvariant(SyncNow(m))
  {
    hide LiveInvariant;
    SameLive(m, SyncNow(m));
  }

  /** Only these parts of the state matter. */
  lemma SameLive(m: Manager, r: Manager)
    requires LiveInvariant(m)
    requires r.current == m.current && r.phase == m.phase && r.restarting == m.restarting
    requires |r.sessions| == |m.sessions|
    requires forall i :: 0 <= i < |m.sessions| ==>
      && r.sessions[i].live == m.sessions[i].live && r.sessions[i].created == m.sessions[i].created
      && r.sessions[i].disposed == m.sessions[i].disposed
    ensures LiveInvariant(r)
  {
  }

  lemma SettleKeepsLive(m: Manager, ok: bool)
    requires WellFormed(m) && LiveInvariant(m) && m.inFlight.Some?
    ensures LiveInvariant(SettleSync(m, ok))
  {
    hide LiveInvariant;
    SameLive(m, SettleSync(m, ok));
  }

  lemma CommandKeepsLive(m: Manager, s: nat, samePath: bool)
    requires WellFormed(m) && LiveInvariant(m) && Known(m, s) && !Overlaps(m, RestartCommand(s, samePath))
    ensures LiveInvariant(TryRestart(m, s, samePath))
  {
  }

  lemma RestartKeepsLive(m: Manager, s: nat, ok: bool)
    requires WellFormed(m) && LiveInvariant(m) && s in m.restarting
    ensures LiveInvariant(FinishRestart(m, s, ok))
  {
  }

  /** Calls, settings, documents and registrations leave the sessions alone. */
  lemma OtherKeepsLive(m: Manager, e: Event)
    requires WellFormed(m) && CanHappen(m, e) && LiveInvariant(m)
    requires !e.BeginOperation? && !e.Continue? && !e.BeginSync? && !e.SyncSettles?
    requires !e.RestartCommand? && !e.ClientRestarted?
    ensures LiveInvariant(Apply(m, e))
  {
    hide LiveInvariant;
    SameLive(m, Apply(m, e));
  }

  lemma StepKeepsLive(m: Manager, e: Event)
    requires WellFormed(m) && CanHappen(m, e) && LiveInvariant(m) && !DisposeFails(m, e) && !Overlaps(m, e)
    ensures LiveInvariant(Apply(m, e))
  {
    hide LiveInvariant, WellFormed, Begin, Resolved, Thrown, SyncNow, SettleSync, TryRestart, FinishRestart;
    match e
    case BeginOperation => BeginKeepsLive(m);
    case Continue(ok) => if ok { ResolvedKeepsLive(m); } else { ThrownKeepsLive(m); }
    case BeginSync => SyncKeepsLive(m);
    case SyncSettles(ok) => SettleKeepsLive(m, ok);
    case RestartCommand(s, samePath) => CommandKeepsLive(m, s, samePath);
    case ClientRestarted(s, ok) => RestartKeepsLive(m, s, ok);
    case _ => OtherKeepsLive(m, e);
  }

  lemma {:induction false} RunKeepsLive(m: Manager, events: seq<Event>)
    requires WellFormed(m) && IsRun(m, events) && Orderly(m, events) && LiveInvariant(m)
    ensures LiveInvariant(After(m, events))
    decreases |events|
  {
    hide Apply, LiveInvariant, WellFormed;
    if events != [] {
      StepKeepsLive(m, events[0]);
      RunKeepsLive(Apply(m, events[0]), events[1..]);
    }
  }

  /** Stops may be rejected at will: while every dispose succeeds and the restart command keeps clear of the
      lifecycle operations, no two servers ever live at the same time. */
  lemma OneServerAtATime(enabled: bool, events: seq<Event>)
    requires IsRun(Initial(enabled), events) && Orderly(Initial(enabled), events)
    ensures AtMostOneLive(After(Initial(enabled), events))
  {
    RunKeepsLive(Initial(enabled), events);
    hide IsRun, Orderly, After;
  }

  // ---------- both conditions are needed ----------

  /** Without a further failed dispose or overlap, two servers can come to live at the same time. */
  ghost predicate LeadsToTwo(m: Manager)
    requires WellFormed(m)
  {
    exists events :: IsRun(m, events) && Orderly(m, events) && !AtMostOneLive(After(m, events))
  }

  lemma LeadsThrough(m: Manager, e: Event)
    requires WellFormed(m) && CanHappen(m, e) && !DisposeFails(m, e) && !Overlaps(m, e) && LeadsToTwo(Apply(m, e))
    ensures LeadsToTwo(m)
  {
    hide Apply, AtMostOneLive, WellFormed, CanHappen, DisposeFails, Overlaps;
    var n := Apply(m, e);
    var events :| IsRun(n, events) && Orderly(n, events) && !AtMostOneLive(After(n, events));
    assert ([e] + events)[0] == e && ([e] + events)[1..] == events;
    assert IsRun(m, [e] + events) && Orderly(m, [e] + events);
    assert !AtMostOneLive(After(m, [e] + events));
  }

  lemma TwoLive(m: Manager, i: nat, j: nat)
    requires WellFormed(m) && Known(m, i) && Known(m, j) && i != j && m.sessions[i].live && m.sessions[j].live
    ensures LeadsToTwo(m)
  {
    assert IsRun(m, []) && Orderly(m, []) && After(m, []) == m;
  }

  /** A live session that no operation will close. */
  predicate Stray(m: Manager, s: nat) {
    Known(m, s) && m.sessions[s].live && m.restarting == multiset{}
  }

  lemma SecondStarts(m: Manager, s: nat)
    requires WellFormed(m) && m.phase.Preparing? && m.phase.s != s && Stray(m, s)
    ensures LeadsToTwo(m)
  {
    hide LeadsToTwo;
    TwoLive(StartClient(m, m.phase.s), s, m.phase.s);
    LeadsThrough(m, Continue(true));
  }

  /** What comes next once there is no current session: queued operations in turn, and then a start. */
  lemma {:induction false} NextBegins(m: Manager, s: nat)
    requires WellFormed(m) && m.phase.Idle? && m.current.None? && m.lifecycle.waiting != [] && Stray(m, s)
    ensures LeadsToTwo(m)
    decreases |m.lifecycle.waiting|, 1
  {
    hide LeadsToTwo;
    var op, r := m.lifecycle.waiting[0], Begin(m);
    match op {
      case Restart => SecondStarts(r, s);
      case Stop => NothingRuns(r, s);
      case Dispose =>
        NothingRuns(End(r), s);
        LeadsThrough(r, Continue(true));
    }
    LeadsThrough(m, BeginOperation);
  }

  lemma {:induction false} NothingRuns(m: Manager, s: nat)
    requires WellFormed(m) && m.phase.Idle? && m.current.None? && Stray(m, s)
    ensures LeadsToTwo(m)
    decreases |m.lifecycle.waiting|, 2
  {
    hide LeadsToTwo;
    if m.lifecycle.waiting != [] {
      NextBegins(m, s);
    } else {
      var m1 := EnqueueLifecycle(m, Restart);
      SecondStarts(Begin(m1), s);
      LeadsThrough(m1, BeginOperation);
      LeadsThrough(m, RestartCalled);
    }
  }

  /** After its session has quit an operation goes on beside the stray server. */
  lemma QuitBeside(m: Manager, op: Operation, s: nat)
    requires m.lifecycle.running && WellFormed(Proceed(m, op)) && Stray(m, s)
    ensures LeadsToTwo(Proceed(m, op))
  {
    hide LeadsToTwo;
    var r := Proceed(m, op);
    match op
    case Restart => SecondStarts(r, s);
    case Stop => NothingRuns(r, s);
    case Dispose =>
      NothingRuns(End(r), s);
      LeadsThrough(r, Continue(true));
  }

  /** The session closes and is started again behind its back. */
  lemma ClosedComesBack(m: Manager, op: Operation, s: nat)
    requires WellFormed(m) && m.phase == Closing(op, s) && m.restarting == multiset{s}
    ensures LeadsToTwo(m)
  {
    hide LeadsToTwo;
    var r := ClientClosed(m, op, s);
    if op.Restart? {
      BackInPreparation(r, s);
    } else {
      ComesBack(r, s);
    }
    LeadsThrough(m, Continue(true));
  }

  lemma BackInPreparation(m: Manager, s: nat)
    requires WellFormed(m) && m.phase.Preparing? && m.phase.s != s && m.restarting == multiset{s}
    ensures LeadsToTwo(m)
  {
    hide LeadsToTwo;
    SecondStarts(FinishRestart(m, s, true), s);
    LeadsThrough(m, ClientRestarted(s, true));
  }

  lemma ComesBack(m: Manager, s: nat)
    requires WellFormed(m) && m.current.None? && (m.phase.Idle? || m.phase.Unsubscribing?)
    requires m.restarting == multiset{s}
    ensures LeadsToTwo(m)
  {
    hide LeadsToTwo;
    var r := FinishRestart(m, s, true);
    if m.phase.Idle? {
      NothingRuns(r, s);
    } else {
      NothingRuns(End(r), s);
      LeadsThrough(r, Continue(true));
    }
    LeadsThrough(m, ClientRestarted(s, true));
  }

  lemma {:induction false} QuittingComesBack(m: Manager, op: Operation, s: nat)
    requires WellFormed(m) && m.phase == Quitting(op, s) && !m.sessions[s].disposed
    requires s in m.restarting && forall x :: x in m.restarting ==> x == s
    ensures LeadsToTwo(m)
    decreases |m.restarting|
  {
    hide LeadsToTwo;
    if m.restarting == multiset{s} {
      ClosedComesBack(CloseClient(m, op, s), op, s);
      LeadsThrough(m, Continue(true));
    } else {
      var r := FinishRestart(m, s, false);
      assert m.restarting == r.restarting + multiset{s};
      assert r.restarting != multiset{};
      QuittingComesBack(r, op, s);
      LeadsThrough(m, ClientRestarted(s, false));
    }
  }

  lemma DiscardingComesBack(m: Manager, s: nat)
    requires WellFormed(m) && m.phase.Discarding? && m.restarting == multiset{s}
    ensures LeadsToTwo(m)
  {
    hide LeadsToTwo;
    ComesBack(Discarded(m, m.phase.s), s);
    LeadsThrough(m, Continue(true));
  }

  lemma CleaningComesBack(m: Manager, s: nat)
    requires WellFormed(m) && m.phase.Cleaning? && m.restarting == multiset{s}
    ensures LeadsToTwo(m)
  {
    hide LeadsToTwo;
    var r := Discard(m, m.phase.s);
    if r.phase.Idle? { ComesBack(r, s); } else { DiscardingComesBack(r, s); }
    LeadsThrough(m, Continue(true));
  }

  lemma FailedComesBack(m: Manager, s: nat)
    requires WellFormed(m) && (m.phase == Starting(s) || m.phase == Finishing(s)) && m.restarting == multiset{s}
    ensures LeadsToTwo(m)
  {
    hide LeadsToTwo;
    CleaningComesBack(Fail(m, s), s);
    LeadsThrough(m, Continue(false));
  }

  lemma CommandForOther(m: Manager, s: nat, c: nat)
    requires WellFormed(m) && LiveInvariant(m) && Known(m, s) && m.sessions[s].created && m.current == Some(c) && c != s
    ensures LeadsToTwo(TryRestart(m, s, true))
  {
    hide LeadsToTwo;
    if m.phase.Preparing? {
      assert m.restarting == multiset{};
      BackInPreparation(TryRestart(m, s, true), s);
    } else {
      OtherIsRestarted(m, s, c);
    }
  }

  lemma OtherIsRestarted(m: Manager, s: nat, c: nat)
    requires WellFormed(m) && Known(m, s) && m.sessions[s].created && c != s && Known(m, c) && m.sessions[c].live
    ensures LeadsToTwo(TryRestart(m, s, true))
  {
    hide LeadsToTwo, WellFormed;
    var r := TryRestart(m, s, true);
    TwoLive(FinishRestart(r, s, true), s, c);
    LeadsThrough(r, ClientRestarted(s, true));
  }

  lemma CommandForCurrent(m: Manager, s: nat)
    requires WellFormed(m) && LiveInvariant(m) && Overlaps(m, RestartCommand(s, true)) && m.current == Some(s)
    ensures LeadsToTwo(TryRestart(m, s, true))
  {
    hide LeadsToTwo;
    var r := TryRestart(m, s, true);
    assert m.restarting == multiset{};
    match m.phase
    case Quitting(op, _) => QuittingComesBack(r, op, s);
    case Closing(op, _) => ClosedComesBack(r, op, s);
    case _ => FailedComesBack(r, s);
  }

  lemma CommandWithoutCurrent(m: Manager, s: nat)
    requires WellFormed(m) && LiveInvariant(m) && Known(m, s) && m.sessions[s].created && m.current.None?
    ensures LeadsToTwo(TryRestart(m, s, true))
  {
    hide LeadsToTwo;
    var r := TryRestart(m, s, true);
    assert m.restarting == multiset{};
    if m.phase.Cleaning? { CleaningComesBack(r, s); }
    else if m.phase.Discarding? { DiscardingComesBack(r, s); }
    else { ComesBack(r, s); }
  }

  lemma BeginLeads(m: Manager)
    requires WellFormed(m) && LiveInvariant(m) && CanPop(m.lifecycle) && m.restarting != multiset{}
    ensures LeadsToTwo(Begin(m))
  {
    hide LeadsToTwo;
    var s :| s in m.restarting;
    QuittingComesBack(Begin(m), m.lifecycle.waiting[0], s);
  }

  /** A client that counts as disposed is left running by the next operation. */
  lemma DisposedIsLeft(m: Manager, s: nat)
    requires WellFormed(m) && m.phase.Idle? && m.current == Some(s) && m.sessions[s].disposed && Stray(m, s)
    requires m.lifecycle.waiting != []
    ensures LeadsToTwo(m)
  {
    hide LeadsToTwo, WellFormed, Apply, CanHappen, DisposeFails, Overlaps, Proceed;
    BeginQuits(m, s);
    var op, r := m.lifecycle.waiting[0], Begin(m);
    QuitsAtOnce(r, op, s);
    QuitBeside(r, op, s);
    LeadsThrough(r, Continue(true));
    LeadsThrough(m, BeginOperation);
  }

  lemma BeginQuits(m: Manager, s: nat)
    requires WellFormed(m) && m.phase.Idle? && m.current == Some(s) && m.lifecycle.waiting != []
    requires m.restarting == multiset{}
    ensures CanPop(m.lifecycle)
    ensures CanHappen(m, BeginOperation) && !DisposeFails(m, BeginOperation) && !Overlaps(m, BeginOperation)
    ensures WellFormed(Begin(m)) && Apply(m, BeginOperation) == Begin(m)
    ensures Begin(m) == m.(lifecycle := Pop(m.lifecycle), phase := Quitting(m.lifecycle.waiting[0], s))
  {
    hide Proceed;
  }

  lemma QuitsAtOnce(m: Manager, op: Operation, s: nat)
    requires WellFormed(m) && m.phase == Quitting(op, s) && m.sessions[s].disposed
    ensures CanHappen(m, Continue(true)) && !DisposeFails(m, Continue(true)) && !Overlaps(m, Continue(true))
    ensures m.lifecycle.running && WellFormed(Proceed(m, op)) && Apply(m, Continue(true)) == Proceed(m, op)
  {
    hide Proceed;
    ProceedFits(m, op);
  }

  lemma FailedDisposeLeads(m: Manager)
    requires WellFormed(m) && LiveInvariant(m) && DisposeFails(m, Continue(false))
    ensures LeadsToTwo(End(m))
  {
    hide LeadsToTwo;
    var s, r := m.phase.s, End(m);
    assert m.restarting == multiset{};
    if !m.phase.Closing? {
      NothingRuns(r, s);
    } else if r.lifecycle.waiting != [] {
      DisposedIsLeft(r, s);
    } else {
      DisposedIsLeft(EnqueueLifecycle(r, Restart), s);
      LeadsThrough(r, RestartCalled);
    }
  }

  /** Each of these events is enough: from every state of the invariant in which it can happen, two servers can
      come to live at the same time without another one. */
  lemma OneEventLeadsToTwo(m: Manager, e: Event)
    requires WellFormed(m) && LiveInvariant(m) && CanHappen(m, e) && (DisposeFails(m, e) || Overlaps(m, e))
    ensures LeadsToTwo(Apply(m, e))
  {
    hide LeadsToTwo, LiveInvariant, WellFormed, Begin, TryRestart, End, Known;
    match e
    case BeginOperation => BeginLeads(m);
    case Continue(_) => FailedDisposeLeads(m);
    case RestartCommand(s, _) =>
      if m.current.None? {
        CommandWithoutCurrent(m, s);
      } else if m.current == Some(s) {
        CommandForCurrent(m, s);
      } else {
        CommandForOther(m, s, m.current.value);
      }
  }
}
