/** The server is told what is registered (packages/vscode-typescript/src/session.ts:62-69, 117-153). */
module Contributions {
  import opened Options
  import opened PromiseQueues
  import opened Sessions

  /** A restart gives up because the old session's own disposal is rejected. */
  predicate RestartGivenUp(m: Manager, e: Event) {
    e == Continue(false) && m.phase.Quitting? && m.phase.op.Restart?
  }

  /** A synchronisation begins that sends a request: there is an initialised client. */
  predicate Sends(m: Manager, e: Event) {
    e.BeginSync? && m.current.Some? && Known(m, m.current.value) && m.sessions[m.current.value].initialized
  }

  /** What a run leaves behind: the setting when a request was last sent, and whether a restart was given up since. */
  datatype Past = Past(sent: bool, givenUp: bool)

  function Note(p: Past, m: Manager, e: Event): Past {
    if Sends(m, e) then Past(m.enabled, false) else if RestartGivenUp(m, e) then p.(givenUp := true) else p
  }

  function PastAfter(p: Past, m: Manager, events: seq<Event>): Past
    requires WellFormed(m) && IsRun(m, events)
    decreases |events|
  {
    if events == [] then p else PastAfter(Note(p, m, events[0]), Apply(m, events[0]), events[1..])
  }

  /** No restart is given up in the run. */
  predicate Steady(m: Manager, events: seq<Event>)
    requires WellFormed(m) && IsRun(m, events)
    decreases |events|
  {
    events == [] || (!RestartGivenUp(m, events[0]) && Steady(Apply(m, events[0]), events[1..]))
  }

  predicate RestartPending(m: Manager) {
    Restart in m.lifecycle.waiting || (m.phase.Quitting? && m.phase.op.Restart?)
  }

  /** There is a server to tell. */
  predicate Attached(m: Manager) {
    m.listening && m.current.Some? && Known(m, m.current.value) && m.sessions[m.current.value].initialized
  }

  /** What a request would say under this setting. */
  function Wanted(m: Manager, setting: bool): seq<Serialized> {
    if setting then Serialize(m.registrations) else []
  }

  /** The server will be told, or it knows the registrations under the setting that was last sent, or its last
      request was rejected. */
  predicate ToldInvariant(m: Manager, sent: bool) {
    Attached(m) ==>
      var s, c := m.current.value, m.sessions[m.current.value];
      || m.sync.waiting != []
      || (if m.inFlight.Some? && m.inFlight.value.s == s && m.inFlight.value.epoch == c.epoch
          then m.inFlight.value.contributions == Wanted(m, sent)
          else c.failed || c.received == Wanted(m, sent))
  }

  /** A changed setting is still to be delivered, unless the restart that was to do it was given up. */
  predicate SettingInvariant(m: Manager, p: Past) {
    Attached(m) && !p.givenUp ==> p.sent == m.enabled || m.sync.waiting != [] || RestartPending(m)
  }

  predicate SyncInvariant(m: Manager, p: Past) {
    ToldInvariant(m, p.sent) && SettingInvariant(m, p)
  }

  lemma BeginKeepsSync(m: Manager, p: Past)
    requires WellFormed(m) && CanPop(m.lifecycle) && SyncInvariant(m, p)
    ensures SyncInvariant(Begin(m), p)
  {
    hide Serialize;
    var waiting := m.lifecycle.waiting;
    assert Restart in waiting && waiting[0] != Restart ==> Restart in waiting[1..];
  }

  lemma CloseKeepsSync(m: Manager, p: Past, op: Operation, s: nat)
    requires WellFormed(m) && SyncInvariant(m, p)
    ensures m.phase == Quitting(op, s) ==> SyncInvariant(CloseClient(m, op, s), p)
    ensures m.phase == Closing(op, s) ==> SyncInvariant(ClientClosed(m, op, s), p)
  {
    hide Serialize;
  }

  lemma StartKeepsSync(m: Manager, p: Past, s: nat)
    requires WellFormed(m) && SyncInvariant(m, p)
    ensures m.phase == Preparing(s) ==> SyncInvariant(StartClient(m, s), p)
    ensures m.phase == Starting(s) ==> SyncInvariant(ClientStarted(m, s), p)
    ensures m.phase == Finishing(s) ==> SyncInvariant(AwaitSync(m, s), p)
    ensures m.phase in {Preparing(s), Starting(s), Finishing(s)} ==> SyncInvariant(Fail(m, s), p)
  {
    hide Serialize;
  }

  lemma DiscardKeepsSync(m: Manager, p: Past, s: nat)
    requires WellFormed(m) && SyncInvariant(m, p)
    ensures m.phase == Cleaning(s) ==> SyncInvariant(Discard(m, s), p)
    ensures m.phase == Discarding(s) ==> SyncInvariant(Discarded(m, s), p)
  {
    hide Serialize;
  }

  lemma EndKeepsSync(m: Manager, p: Past)
    requires WellFormed(m) && SyncInvariant(m, p) && !m.phase.Idle?
    ensures SyncInvariant(End(m), if RestartGivenUp(m, Continue(false)) then p.(givenUp := true) else p)
  {
    hide Serialize;
  }

  lemma ResolvedKeepsSync(m: Manager, p: Past)
    requires WellFormed(m) && CanHappen(m, Continue(true)) && SyncInvariant(m, p)
    ensures SyncInvariant(Resolved(m), p)
  {
    hide SyncInvariant, WellFormed, End, CloseClient, ClientClosed, StartClient, ClientStarted, AwaitSync, Discard,
      Discarded;
    match m.phase
    case Quitting(op, s) => CloseKeepsSync(m, p, op, s);
    case Closing(op, s) => CloseKeepsSync(m, p, op, s);
    case Preparing(s) => StartKeepsSync(m, p, s);
    case Starting(s) => StartKeepsSync(m, p, s);
    case Finishing(s) => StartKeepsSync(m, p, s);
    case Syncing(_, _) => EndKeepsSync(m, p);
    case Cleaning(s) => DiscardKeepsSync(m, p, s);
    case Discarding(s) => DiscardKeepsSync(m, p, s);
    case Unsubscribing => EndKeepsSync(m, p);
  }

  lemma ThrownKeepsSync(m: Manager, p: Past)
    requires WellFormed(m) && CanHappen(m, Continue(false)) && SyncInvariant(m, p)
    ensures SyncInvariant(Thrown(m), Note(p, m, Continue(false)))
  {
    hide SyncInvariant, WellFormed, End, Fail;
    match m.phase
    case Preparing(s) => StartKeepsSync(m, p, s);
    case Starting(s) => StartKeepsSync(m, p, s);
    case Finishing(s) => StartKeepsSync(m, p, s);
    case _ => EndKeepsSync(m, p);
  }

  lemma SyncKeepsSync(m: Manager, p: Past)
    requires WellFormed(m) && SyncInvariant(m, p) && CanPop(m.sync)
    ensures SyncInvariant(SyncNow(m), Note(p, m, BeginSync))
  {
    hide Serialize;
  }

  lemma SettleKeepsSync(m: Manager, p: Past, ok: bool)
    requires WellFormed(m) && SyncInvariant(m, p) && m.inFlight.Some?
    ensures SyncInvariant(SettleSync(m, ok), p)
  {
    hide Serialize;
  }

  lemma CommandKeepsSync(m: Manager, p: Past, s: nat, samePath: bool)
    requires WellFormed(m) && SyncInvariant(m, p) && Known(m, s)
    ensures SyncInvariant(TryRestart(m, s, samePath), p)
  {
    hide Serialize;
  }

  lemma RestartKeepsSync(m: Manager, p: Past, s: nat, ok: bool)
    requires WellFormed(m) && SyncInvariant(m, p) && s in m.restarting
    ensures SyncInvariant(FinishRestart(m, s, ok), p)
  {
    hide Serialize;
  }

  /** Calls, settings, documents and registrations. */
  lemma OtherKeepsSync(m: Manager, p: Past, e: Event)
    requires WellFormed(m) && CanHappen(m, e) && SyncInvariant(m, p)
    requires !e.BeginOperation? && !e.Continue? && !e.BeginSync? && !e.SyncSettles?
    requires !e.RestartCommand? && !e.ClientRestarted?
    ensures SyncInvariant(Apply(m, e), p)
  {
    hide Serialize, Delete, WellFormed;
  }

  lemma StepKeepsSync(m: Manager, p: Past, e: Event)
    requires WellFormed(m) && CanHappen(m, e) && SyncInvariant(m, p)
    ensures SyncInvariant(Apply(m, e), Note(p, m, e))
  {
    hide SyncInvariant, WellFormed, Begin, Resolved, Thrown, SyncNow, SettleSync, TryRestart, FinishRestart;
    match e
    case BeginOperation => BeginKeepsSync(m, p);
    case Continue(ok) => if ok { ResolvedKeepsSync(m, p); } else { ThrownKeepsSync(m, p); }
    case BeginSync => SyncKeepsSync(m, p);
    case SyncSettles(ok) => SettleKeepsSync(m, p, ok);
    case RestartCommand(s, samePath) => CommandKeepsSync(m, p, s, samePath);
    case ClientRestarted(s, ok) => RestartKeepsSync(m, p, s, ok);
    case _ => OtherKeepsSync(m, p, e);
  }

  lemma {:induction false} RunKeepsSync(m: Manager, p: Past, events: seq<Event>)
    requires WellFormed(m) && IsRun(m, events) && SyncInvariant(m, p)
    ensures SyncInvariant(After(m, events), PastAfter(p, m, events))
    decreases |events|
  {
    hide Apply, SyncInvariant, WellFormed, Note;
    if events != [] {
      StepKeepsSync(m, p, events[0]);
      RunKeepsSync(Apply(m, events[0]), Note(p, m, events[0]), events[1..]);
    }
  }

  // ---------- registrations and their disposables ----------

  /** The registrations whose disposables have not been used, oldest first. */
  function Active(handles: seq<Handle>): seq<Registration> {
    if handles == [] then []
    else if handles[0].disposed then Active(handles[1..])
    else [Registration(handles[0].contributorId, handles[0].contributions)] + Active(handles[1..])
  }

  predicate Distinct(registrations: seq<Registration>) {
    registrations == [] || (!Has(registrations[1..], registrations[0].contributorId) && Distinct(registrations[1..]))
  }

  predicate RegistrationsMatch(m: Manager) {
    m.registrations == Active(m.handles) && Distinct(m.registrations)
  }

  lemma HasCons(r: Registration, rest: seq<Registration>, id: string)
    ensures Has([r] + rest, id) <==> r.contributorId == id || Has(rest, id)
  {
    if Has(rest, id) {
      var i :| 0 <= i < |rest| && rest[i].contributorId == id;
      assert ([r] + rest)[i + 1].contributorId == id;
    }
    if r.contributorId == id { assert ([r] + rest)[0].contributorId == id; }
  }

  lemma HasSnoc(rest: seq<Registration>, r: Registration, id: string)
    ensures Has(rest + [r], id) <==> Has(rest, id) || r.contributorId == id
  {
    if Has(rest, id) {
      var i :| 0 <= i < |rest| && rest[i].contributorId == id;
      assert (rest + [r])[i].contributorId == id;
    }
    if r.contributorId == id { assert (rest + [r])[|rest|].contributorId == id; }
  }

  lemma {:induction false} ActiveSnoc(handles: seq<Handle>, h: Handle)
    ensures Active(handles + [h]) == Active(handles) + Active([h])
  {
    if handles == [] {
      assert handles + [h] == [h];
    } else {
      assert (handles + [h])[1..] == handles[1..] + [h];
      ActiveSnoc(handles[1..], h);
    }
  }

  lemma {:induction false} DistinctSnoc(registrations: seq<Registration>, r: Registration)
    requires Distinct(registrations) && !Has(registrations, r.contributorId)
    ensures Distinct(registrations + [r])
  {
    if registrations != [] {
      var head, rest := registrations[0], registrations[1..];
      assert registrations == [head] + rest && (registrations + [r])[1..] == rest + [r];
      HasCons(head, rest, r.contributorId);
      DistinctSnoc(rest, r);
      HasSnoc(rest, r, head.contributorId);
    }
  }

  lemma {:induction false} ActiveHas(handles: seq<Handle>, h: nat)
    requires h < |handles| && !handles[h].disposed
    ensures Has(Active(handles), handles[h].contributorId)
  {
    if h > 0 {
      ActiveHas(handles[1..], h - 1);
    }
    if !handles[0].disposed {
      HasCons(Registration(handles[0].contributorId, handles[0].contributions), Active(handles[1..]),
              handles[h].contributorId);
    }
  }

  /** Deleting by contributor removes the registration of exactly the disposed handle. */
  lemma {:induction false} DeleteIsDispose(handles: seq<Handle>, h: nat)
    requires h < |handles| && !handles[h].disposed && Distinct(Active(handles))
    ensures Delete(Active(handles), handles[h].contributorId) == Active(handles[h := handles[h].(disposed := true)])
    ensures Distinct(Delete(Active(handles), handles[h].contributorId))
    ensures forall id :: Has(Delete(Active(handles), handles[h].contributorId), id) ==> Has(Active(handles), id)
  {
    var after := handles[h := handles[h].(disposed := true)];
    var first := Registration(handles[0].contributorId, handles[0].contributions);
    if h == 0 {
      var rest := Active(handles[1..]);
      assert after[1..] == handles[1..] && ([first] + rest)[1..] == rest;
      forall id ensures Has([first] + rest, id) <==> first.contributorId == id || Has(rest, id) {
        HasCons(first, rest, id);
      }
    } else {
      assert after[1..] == handles[1..][h - 1 := handles[h].(disposed := true)];
      if handles[0].disposed {
        DeleteIsDispose(handles[1..], h - 1);
      } else {
        var rest := Active(handles[1..]);
        assert Active(handles)[1..] == rest;
        DeleteIsDispose(handles[1..], h - 1);
        ActiveHas(handles[1..], h - 1);
        assert first.contributorId != handles[h].contributorId;
        var shorter := Delete(rest, handles[h].contributorId);
        assert ([first] + shorter)[1..] == shorter;
        HasCons(first, shorter, first.contributorId);
        forall id ensures Has([first] + shorter, id) ==> Has([first] + rest, id) {
          HasCons(first, rest, id);
          HasCons(first, shorter, id);
        }
      }
    }
  }

  /** A deleted contributor is gone. */
  lemma {:induction false} DeleteRemoves(registrations: seq<Registration>, id: string)
    requires Distinct(registrations)
    ensures !Has(Delete(registrations, id), id)
  {
    if registrations != [] {
      var head, rest := registrations[0], registrations[1..];
      if head.contributorId != id {
        DeleteRemoves(rest, id);
        HasCons(head, Delete(rest, id), id);
      }
    }
  }

  lemma {:induction false} DeleteLast(registrations: seq<Registration>, r: Registration)
    requires !Has(registrations, r.contributorId)
    ensures Delete(registrations + [r], r.contributorId) == registrations
  {
    if registrations != [] {
      var head, rest := registrations[0], registrations[1..];
      assert registrations == [head] + rest && (registrations + [r])[1..] == rest + [r];
      HasCons(head, rest, r.contributorId);
      DeleteLast(rest, r);
    }
  }

  /** A registration that is disposed of leaves no trace, whatever was registered and disposed before. */
  lemma RegisterThenDispose(m: Manager, id: string, contributions: seq<string>)
    requires RegistrationsMatch(m)
    ensures var r := RegisterMappers(m, id, contributions, true);
      if Has(Active(m.handles), id) then r == m
      else |r.handles| == |m.handles| + 1 && DisposeHandle(r, |m.handles|).registrations == m.registrations
  {
    hide Has, Delete, Active, Distinct;
    if !Has(m.registrations, id) { DeleteLast(m.registrations, Registration(id, contributions)); }
  }

  lemma StepKeepsRegistrations(m: Manager, e: Event)
    requires WellFormed(m) && CanHappen(m, e) && RegistrationsMatch(m)
    ensures RegistrationsMatch(Apply(m, e))
  {
    hide Active, Distinct, Has, Delete, WellFormed;
    match e
    case Register(id, contributions, valid) =>
      if valid && !Has(m.registrations, id) {
        ActiveSnoc(m.handles, Handle(id, contributions, false));
        DistinctSnoc(m.registrations, Registration(id, contributions));
        ActiveOne(Handle(id, contributions, false));
      }
    case Unregister(h) => if !m.handles[h].disposed { DeleteIsDispose(m.handles, h); }
    case _ =>
      SameRegistrations(m, e);
  }

  lemma ActiveOne(h: Handle)
    requires !h.disposed
    ensures Active([h]) == [Registration(h.contributorId, h.contributions)]
  {
  }

  lemma SameRegistrations(m: Manager, e: Event)
    requires WellFormed(m) && CanHappen(m, e) && !e.Register? && !e.Unregister?
    ensures Apply(m, e).registrations == m.registrations && Apply(m, e).handles == m.handles
  {
    hide WellFormed, Resolved, Thrown;
    match e
    case Continue(ok) => SameWhileOperating(m);
    case _ =>
  }

  lemma SameWhileOperating(m: Manager)
    requires WellFormed(m) && !m.phase.Idle?
    ensures Resolved(m).registrations == m.registrations && Resolved(m).handles == m.handles
    ensures Thrown(m).registrations == m.registrations && Thrown(m).handles == m.handles
  {
    hide WellFormed;
  }

  lemma {:induction false} RunKeepsRegistrations(m: Manager, events: seq<Event>)
    requires WellFormed(m) && IsRun(m, events) && RegistrationsMatch(m)
    ensures RegistrationsMatch(After(m, events))
    decreases |events|
  {
    hide Apply, RegistrationsMatch, WellFormed;
    if events != [] {
      StepKeepsRegistrations(m, events[0]);
      RunKeepsRegistrations(Apply(m, events[0]), events[1..]);
    }
  }

  // ---------- main results ----------

  /** There is a server to tell, nothing is left to synchronise, and the last request was not rejected. */
  predicate Quiet(m: Manager) {
    Attached(m) && m.sync.waiting == [] && !m.sync.running && !m.sessions[m.current.value].failed
  }

  /** The current server has been told every contribution of the registrations that are still held, in order, and
      nothing else; with the setting off, nothing. */
  ghost predicate IsTold(m: Manager)
    requires Quiet(m)
  {
    Lists(m.sessions[m.current.value].received, if m.enabled then Active(m.handles) else [])
  }

  lemma ToldIsSerialized(m: Manager)
    requires Quiet(m)
    ensures IsTold(m) <==>
      m.sessions[m.current.value].received == if m.enabled then Serialize(Active(m.handles)) else []
  {
    hide Lists, Active;
    SerializeLists(m.sessions[m.current.value].received, if m.enabled then Active(m.handles) else []);
  }

  /** Held are the registrations whose disposable has not been used, in the order they were made. */
  lemma {:induction false} HeldAt(handles: seq<Handle>, h: nat)
    requires h < |handles| && !handles[h].disposed
    ensures var at := |Active(handles[..h])|;
      at < |Active(handles)| && Active(handles)[at] == Registration(handles[h].contributorId, handles[h].contributions)
  {
    if h == 0 {
      assert handles[..0] == [];
    } else {
      HeldAt(handles[1..], h - 1);
      assert handles[..h][1..] == handles[1..][..h - 1];
    }
  }

  /** And there are no others. */
  lemma {:induction false} NoOthersHeld(handles: seq<Handle>, at: nat) returns (h: nat)
    requires at < |Active(handles)|
    ensures h < |handles| && !handles[h].disposed && |Active(handles[..h])| == at
  {
    var own := if handles[0].disposed then 0 else 1;
    if at < own {
      assert handles[..0] == [];
      h := 0;
    } else {
      var k := NoOthersHeld(handles[1..], at - own);
      h := k + 1;
      assert handles[..h][1..] == handles[1..][..k] && handles[..h][0] == handles[0];
    }
  }

  /** The setting is what it was when a request was last sent, or makes no difference. */
  predicate SettingDelivered(m: Manager, p: Past) {
    p.sent == m.enabled || Serialize(Active(m.handles)) == []
  }

  lemma QuietIsTold(m: Manager, p: Past)
    requires WellFormed(m) && SyncInvariant(m, p) && RegistrationsMatch(m) && Quiet(m)
    ensures IsTold(m) <==> SettingDelivered(m, p)
    ensures !RestartPending(m) && !p.givenUp ==> p.sent == m.enabled
  {
    hide Serialize, Active, Distinct, RestartPending, IsTold;
    ToldIsSerialized(m);
  }

  const NO_PAST := Past(true, false)

  /** Where a run starts nothing has been sent. */
  lemma NothingSent(enabled: bool)
    ensures SyncInvariant(Initial(enabled), NO_PAST) && RegistrationsMatch(Initial(enabled))
  {
  }

  /** In every run, whatever is registered, disposed, switched, restarted, rejected or given up: once it is quiet the
      server has been told what it should be exactly when the setting is the one last sent, or makes no difference. */
  lemma ServerIsTold(enabled: bool, events: seq<Event>)
    requires IsRun(Initial(enabled), events)
    ensures var m, p := After(Initial(enabled), events), PastAfter(NO_PAST, Initial(enabled), events);
      Quiet(m) ==> (IsTold(m) <==> SettingDelivered(m, p))
  {
    hide IsRun, After, PastAfter, SyncInvariant, RegistrationsMatch, Quiet, IsTold, SettingDelivered, WellFormed;
    NothingSent(enabled);
    RunKeepsSync(Initial(enabled), NO_PAST, events);
    RunKeepsRegistrations(Initial(enabled), events);
    var m, p := After(Initial(enabled), events), PastAfter(NO_PAST, Initial(enabled), events);
    if Quiet(m) { QuietIsTold(m, p); }
  }

  /** So only a restart that was given up since the last request can leave it otherwise, once no restart is due. */
  lemma ToldUnlessGivenUp(enabled: bool, events: seq<Event>)
    requires IsRun(Initial(enabled), events)
    ensures var m, p := After(Initial(enabled), events), PastAfter(NO_PAST, Initial(enabled), events);
      Quiet(m) && !RestartPending(m) && !p.givenUp ==> IsTold(m)
  {
    hide IsRun, After, PastAfter, SyncInvariant, RegistrationsMatch, Quiet, IsTold, RestartPending, WellFormed;
    NothingSent(enabled);
    RunKeepsSync(Initial(enabled), NO_PAST, events);
    RunKeepsRegistrations(Initial(enabled), events);
    var m, p := After(Initial(enabled), events), PastAfter(NO_PAST, Initial(enabled), events);
    if Quiet(m) { QuietIsTold(m, p); }
  }

  lemma {:induction false} SteadyGivesNothingUp(p: Past, m: Manager, events: seq<Event>)
    requires WellFormed(m) && IsRun(m, events) && Steady(m, events) && !p.givenUp
    ensures !PastAfter(p, m, events).givenUp
    decreases |events|
  {
    hide Apply, WellFormed, CanHappen, RestartGivenUp, Sends;
    if events != [] { SteadyGivesNothingUp(Note(p, m, events[0]), Apply(m, events[0]), events[1..]); }
  }

  /** In particular nothing can while no restart is ever given up. */
  lemma SteadyServerIsTold(enabled: bool, events: seq<Event>)
    requires IsRun(Initial(enabled), events) && Steady(Initial(enabled), events)
    ensures var m := After(Initial(enabled), events); Quiet(m) && !RestartPending(m) ==> IsTold(m)
  {
    hide IsRun, After, PastAfter, Steady, Quiet, IsTold, RestartPending, WellFormed;
    SteadyGivesNothingUp(NO_PAST, Initial(enabled), events);
    ToldUnlessGivenUp(enabled, events);
  }

  /** From every quiet state in which the server has been told what it should be and that would make a difference,
      a change of setting whose restart is given up leaves it told otherwise. */
  lemma GivenUpRestartLosesChange(m: Manager, s: nat)
    requires WellFormed(m) && m.phase.Idle? && m.lifecycle.waiting == [] && m.current == Some(s)
    requires Quiet(m) && IsTold(m) && Serialize(Active(m.handles)) != []
    ensures var events := [SettingChanged(!m.enabled), BeginOperation, Continue(false)];
      IsRun(m, events) && Quiet(After(m, events)) && !RestartPending(After(m, events)) && !IsTold(After(m, events))
  {
    assert m.listening;
    hide Serialize, Active, Quiet, IsTold, RestartPending, WellFormed, Apply, CanHappen;
    var m1 := ChangeSetting(m, !m.enabled);
    ChangeIsEnqueued(m);
    var m2 := Begin(m1);
    RestartQuits(m1, s);
    QuittingIsGivenUp(m2, s);
    var m3 := End(m2);
    AfterNone(m3);
    AfterFirst(m2, Continue(false), []);
    AfterFirst(m1, BeginOperation, [Continue(false)]);
    AfterFirst(m, SettingChanged(!m.enabled), [BeginOperation, Continue(false)]);
    assert [Continue(false)] == [Continue(false)] + [];
    assert [BeginOperation, Continue(false)] == [BeginOperation] + [Continue(false)];
    assert [SettingChanged(!m.enabled), BeginOperation, Continue(false)] ==
      [SettingChanged(!m.enabled)] + [BeginOperation, Continue(false)];
    OnlyTheSetting(m, m3);
  }

  lemma ChangeIsEnqueued(m: Manager)
    requires WellFormed(m) && m.listening && m.current.Some? && m.lifecycle.waiting == []
    ensures var e, r := SettingChanged(!m.enabled), ChangeSetting(m, !m.enabled);
      && WellFormed(m) && CanHappen(m, e) && r == Apply(m, e) && WellFormed(r)
      && r == m.(enabled := !m.enabled, lifecycle := m.lifecycle.(waiting := [Restart]))
  {
    hide WellFormed;
  }

  lemma RestartQuits(m: Manager, s: nat)
    requires WellFormed(m) && m.phase.Idle? && m.lifecycle.waiting == [Restart] && m.current == Some(s)
    ensures CanPop(m.lifecycle) && CanHappen(m, BeginOperation) && Begin(m) == Apply(m, BeginOperation)
    ensures Begin(m) == m.(lifecycle := m.lifecycle.(waiting := [], running := true), phase := Quitting(Restart, s))
  {
  }

  lemma QuittingIsGivenUp(m: Manager, s: nat)
    requires WellFormed(m) && m.phase == Quitting(Restart, s)
    ensures m.lifecycle.running && CanHappen(m, Continue(false)) && End(m) == Apply(m, Continue(false))
  {
  }

  lemma OnlyTheSetting(m: Manager, r: Manager)
    requires Quiet(m) && IsTold(m) && Serialize(Active(m.handles)) != []
    requires r.sessions == m.sessions && r.current == m.current && r.handles == m.handles && r.sync == m.sync
    requires r.listening == m.listening && r.enabled == !m.enabled && r.lifecycle.waiting == [] && r.phase.Idle?
    ensures Quiet(r) && !RestartPending(r) && !IsTold(r)
  {
    hide Serialize, Active, IsTold;
    ToldIsSerialized(m);
    ToldIsSerialized(r);
  }

  lemma AfterNone(m: Manager)
    requires WellFormed(m)
    ensures IsRun(m, []) && After(m, []) == m
  {
  }

  lemma AfterFirst(m: Manager, e: Event, rest: seq<Event>)
    requires WellFormed(m) && CanHappen(m, e) && IsRun(Apply(m, e), rest)
    ensures IsRun(m, [e] + rest) && After(m, [e] + rest) == After(Apply(m, e), rest)
  {
    hide Apply, CanHappen, WellFormed;
    assert ([e] + rest)[0] == e && ([e] + rest)[1..] == rest;
  }
}
