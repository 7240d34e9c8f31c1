/** The language client's error handler (packages/vscode-typescript/src/client.ts:579-690). */
module RestartLimiter {
  import opened Text
  import opened StderrSanitizer

  // ---------- deciding about restarts ----------

  const THREE_MINUTES := 3 * 60 * 1000

  datatype CloseAction = Restart | DoNotRestart

  /** A close: what the handler then remembers, and what it decides. */
  function Close(maxRestartCount: nat, restarts: seq<int>, now: int): (seq<int>, CloseAction) {
    var all := restarts + [now];
    if |all| <= maxRestartCount then (all, Restart)
    else if now - all[0] <= THREE_MINUTES then (all, DoNotRestart)
    else (all[1..], Restart)
  }

  /** What is remembered after the closes at the given times, in order. */
  function Remembered(max: nat, times: seq<int>): seq<int> {
    if times == [] then []
    else Close(max, Remembered(max, times[..|times| - 1]), times[|times| - 1]).0
  }

  predicate Refused(max: nat, times: seq<int>, now: int) {
    Close(max, Remembered(max, times), now).1.DoNotRestart?
  }

  /** How many of the closes were refused a restart. */
  function Refusals(max: nat, times: seq<int>): nat {
    if times == [] then 0
    else
      var before, now := times[..|times| - 1], times[|times| - 1];
      Refusals(max, before) + if Refused(max, before, now) then 1 else 0
  }

  function Min(a: nat, b: nat): nat {
    if a <= b then a else b
  }

  /** What is remembered is the most recent closes: up to the maximum, and one more for every refusal. */
  lemma {:induction false} RemembersTheLatest(max: nat, times: seq<int>)
    ensures var kept := Min(|times|, max) + Refusals(max, times);
      kept <= |times| && Remembered(max, times) == times[|times| - kept..]
  {
    if times != [] {
      var n := |times| - 1;
      RemembersTheLatest(max, times[..n]);
      OneMoreClose(times, Min(n, max) + Refusals(max, times[..n]));
    }
  }

  lemma OneMoreClose(times: seq<int>, kept: nat)
    requires times != [] && kept <= |times| - 1
    ensures var n := |times| - 1;
      times[..n][n - kept..] + [times[n]] == times[n - kept..] && times[n - kept..][1..] == times[n - kept + 1..]
  {
  }

  // ---------- what the decision means ----------

  /** How many of the closes were at or after from. */
  function Since(times: seq<int>, from: int): (r: nat)
    ensures r <= |times|
  {
    if times == [] then 0
    else Since(times[..|times| - 1], from) + if times[|times| - 1] >= from then 1 else 0
  }

  predicate Ordered(times: seq<int>) {
    forall i, j :: 0 <= i <= j < |times| ==> times[i] <= times[j]
  }

  lemma {:induction false} SinceIsASuffix(times: seq<int>, from: int, k: nat)
    requires Ordered(times) && 0 < k <= |times|
    ensures Since(times, from) >= k <==> times[|times| - k] >= from
  {
    var n := |times| - 1;
    if times[n] < from {
      NoneSince(times, from);
    } else if k > 1 {
      SinceIsASuffix(times[..n], from, k - 1);
    }
  }

  lemma {:induction false} NoneSince(times: seq<int>, from: int)
    requires forall i :: 0 <= i < |times| ==> times[i] < from
    ensures Since(times, from) == 0
  {
    if times != [] { NoneSince(times[..|times| - 1], from); }
  }

  /** With a clock that does not run backwards, a restart is refused exactly when the last three minutes, this
      close included, saw one close more than the maximum and one more again for each earlier refusal. */
  lemma RefusedIff(max: nat, times: seq<int>, now: int)
    requires Ordered(times + [now])
    ensures Refused(max, times, now) <==>
      Since(times + [now], now - THREE_MINUTES) >= max + 1 + Refusals(max, times)
  {
    RemembersTheLatest(max, times);
    var all := times + [now];
    var kept := Min(|times|, max) + Refusals(max, times);
    assert Remembered(max, times) + [now] == all[|times| - kept..];
    if |times| >= max {
      SinceIsASuffix(all, now - THREE_MINUTES, kept + 1);
    }
  }

  /** The message's claim, that the server crashed more often than the maximum within three minutes, is always
      true; without an earlier refusal it is also the rule. */
  lemma MessageIsTrue(max: nat, times: seq<int>, now: int)
    requires Ordered(times + [now])
    ensures Refused(max, times, now) ==> Since(times + [now], now - THREE_MINUTES) >= max + 1
    ensures Refusals(max, times) == 0 ==>
      (Refused(max, times, now) <==> Since(times + [now], now - THREE_MINUTES) >= max + 1)
  {
    RefusedIff(max, times, now);
  }

  /** max + 1 closes at time 0, the last of them refused, and later closes at time 200000. */
  function AfterRefusal(max: nat, later: nat): seq<int> {
    seq(max + 1 + later, i => if i <= max then 0 else 200000)
  }

  lemma {:induction false} SinceZero(n: nat)
    ensures Since(seq(n, _ => 0), -THREE_MINUTES) == n
  {
    if n > 0 {
      assert seq(n, _ => 0)[..n - 1] == seq(n - 1, _ => 0);
      SinceZero(n - 1);
    }
  }

  lemma {:induction false} NoRefusals(max: nat, n: nat)
    requires n <= max
    ensures Refusals(max, seq(n, _ => 0)) == 0
  {
    if n > 0 {
      var before := seq(n - 1, _ => 0);
      assert seq(n, _ => 0)[..n - 1] == before && before + [0] == seq(n, _ => 0);
      NoRefusals(max, n - 1);
      RefusedIff(max, before, 0);
    }
  }

  lemma {:induction false} SinceLater(max: nat, later: nat)
    ensures Since(AfterRefusal(max, later), 200000 - THREE_MINUTES) == later
  {
    var times := AfterRefusal(max, later);
    if later == 0 {
      NoneSince(times, 200000 - THREE_MINUTES);
    } else {
      assert times[..|times| - 1] == AfterRefusal(max, later - 1);
      SinceLater(max, later - 1);
    }
  }

  lemma RefusalsSnoc(max: nat, before: seq<int>, now: int)
    ensures Refusals(max, before + [now]) == Refusals(max, before) + if Refused(max, before, now) then 1 else 0
  {
    assert (before + [now])[..|before|] == before;
  }

  lemma AfterRefusalParts(max: nat, later: nat)
    ensures Ordered(AfterRefusal(max, later))
    ensures later == 0 ==> AfterRefusal(max, later) == seq(max, _ => 0) + [0] == seq(max + 1, _ => 0)
    ensures later > 0 ==> AfterRefusal(max, later) == AfterRefusal(max, later - 1) + [200000]
  {
  }

  lemma FirstIsRefused(max: nat)
    ensures Refusals(max, AfterRefusal(max, 0)) == 1
  {
    hide AfterRefusal, Refused, Refusals, Since, Ordered;
    var before := seq(max, _ => 0);
    AfterRefusalParts(max, 0);
    RefusalsSnoc(max, before, 0);
    NoRefusals(max, max);
    SinceZero(max + 1);
    RefusedIff(max, before, 0);
  }

  lemma {:induction false} OneRefusal(max: nat, later: nat)
    requires later <= max + 1
    ensures Refusals(max, AfterRefusal(max, later)) == 1
  {
    hide AfterRefusal, Refused, Refusals, Since, Ordered;
    if later == 0 {
      FirstIsRefused(max);
    } else {
      var before := AfterRefusal(max, later - 1);
      AfterRefusalParts(max, later);
      OneRefusal(max, later - 1);
      RefusalsSnoc(max, before, 200000);
      SinceLater(max, later);
      RefusedIff(max, before, 200000);
    }
  }

  /** After a refusal the rule is no longer the message's: here the last three minutes saw more closes than
      the maximum, and the server is restarted all the same. */
  lemma RefusalsAreRemembered(max: nat)
    ensures var times := AfterRefusal(max, max);
      && Ordered(times + [200000])
      && Since(times + [200000], 200000 - THREE_MINUTES) == max + 1
      && !Refused(max, times, 200000)
  {
    hide AfterRefusal, Refused, Refusals, Since, Ordered;
    var times := AfterRefusal(max, max);
    AfterRefusalParts(max, max + 1);
    SinceLater(max, max + 1);
    OneRefusal(max, max);
    RefusedIff(max, times, 200000);
  }

  // ---------- capturing a panic ----------

  const MAX_STDERR_LINES := 40

  datatype Capture = Capture(buffer: seq<string>, capturing: bool)

  function Take(c: Capture, l: string): Capture {
    if !c.capturing && !IsPanic(l) then c
    else
      var kept := if c.capturing then c.buffer else [];
      if |kept| < MAX_STDERR_LINES then Capture(kept + [l], true) else Capture(kept, false)
  }

  function TakeAll(c: Capture, lines: seq<string>): Capture {
    if lines == [] then c else Take(TakeAll(c, lines[..|lines| - 1]), lines[|lines| - 1])
  }

  lemma TakeNone(c: Capture, lines: seq<string>)
    requires lines == []
    ensures TakeAll(c, lines) == c
  {
  }

  lemma TakeOneMore(c: Capture, lines: seq<string>, i: nat)
    requires i < |lines|
    ensures TakeAll(c, lines[..i + 1]) == Take(TakeAll(c, lines[..i]), lines[i])
  {
    assert lines[..i + 1][..i] == lines[..i];
  }

  lemma {:induction false} TakeAllConcat(c: Capture, xs: seq<string>, ys: seq<string>)
    ensures TakeAll(c, xs + ys) == TakeAll(TakeAll(c, xs), ys)
  {
    if ys == [] {
      assert xs + ys == xs;
    } else {
      var init := ys[..|ys| - 1];
      assert (xs + ys)[..|xs + ys| - 1] == xs + init;
      TakeAllConcat(c, xs, init);
    }
  }

  /** The report of a run of lines: the last panic that was not itself part of a capture, with what follows it
      up to the limit; the line on which a full capture ends is lost. */
  function Report(lines: seq<string>): Capture {
    if lines == [] then Capture([], false)
    else if !IsPanic(lines[0]) then Report(lines[1..])
    else if |lines| <= MAX_STDERR_LINES then Capture(lines, true)
    else
      var later := Report(lines[Min(MAX_STDERR_LINES + 1, |lines|)..]);
      if later.buffer == [] then Capture(lines[..MAX_STDERR_LINES], false) else later
  }

  lemma {:induction false} TakeWhileRoom(kept: seq<string>, lines: seq<string>)
    requires lines != [] && IsPanic(lines[0]) && |lines| <= MAX_STDERR_LINES
    ensures TakeAll(Capture(kept, false), lines) == Capture(lines, true)
    decreases |lines|
  {
    hide IsPanic;
    var init := lines[..|lines| - 1];
    if init == [] {
      TakeNone(Capture(kept, false), init);
    } else {
      TakeWhileRoom(kept, init);
    }
  }

  lemma {:induction false} IdleKeepsBuffer(kept: seq<string>, lines: seq<string>)
    ensures TakeAll(Capture(kept, false), lines) ==
      if Report(lines).buffer == [] then Capture(kept, false) else Report(lines)
    ensures Report(lines).buffer == [] ==> Report(lines) == Capture([], false)
    decreases |lines|
  {
    hide IsPanic;
    var start := Capture(kept, false);
    if lines == [] {
    } else if !IsPanic(lines[0]) {
      TakeAllConcat(start, lines[..1], lines[1..]);
      assert lines[..1] + lines[1..] == lines && lines[..1][..0] == [];
      assert TakeAll(start, lines[..1]) == start;
      IdleKeepsBuffer(kept, lines[1..]);
    } else if |lines| <= MAX_STDERR_LINES {
      TakeWhileRoom(kept, lines);
    } else {
      var full, rest := lines[..MAX_STDERR_LINES], lines[MAX_STDERR_LINES + 1..];
      TakeWhileRoom(kept, full);
      assert lines[..MAX_STDERR_LINES + 1][..MAX_STDERR_LINES] == full;
      assert TakeAll(start, lines[..MAX_STDERR_LINES + 1]) == Capture(full, false);
      TakeAllConcat(start, lines[..MAX_STDERR_LINES + 1], rest);
      assert lines[..MAX_STDERR_LINES + 1] + rest == lines;
      IdleKeepsBuffer(full, rest);
    }
  }

  /** From a clean start the buffer is the report of all the lines pushed, however they were cut into chunks. */
  lemma CaptureIsReport(lines: seq<string>)
    ensures TakeAll(Capture([], false), lines) == Report(lines)
  {
    IdleKeepsBuffer([], lines);
  }

  /** r is a stretch of the lines that runs to their end while capturing goes on. */
  ghost predicate StretchOf(r: Capture, lines: seq<string>) {
    exists i :: 0 <= i <= |lines| && r.buffer <= lines[i..] && (r.capturing ==> r.buffer == lines[i..])
  }

  lemma LaterStretch(r: Capture, lines: seq<string>, k: nat)
    requires k <= |lines| && StretchOf(r, lines[k..])
    ensures StretchOf(r, lines)
  {
    var i :| 0 <= i <= |lines[k..]| && r.buffer <= lines[k..][i..] && (r.capturing ==> r.buffer == lines[k..][i..]);
    assert lines[k..][i..] == lines[i + k..];
  }

  lemma WholeStretch(r: Capture, lines: seq<string>)
    requires r.buffer <= lines && (r.capturing ==> r.buffer == lines)
    ensures StretchOf(r, lines)
  {
    assert lines[0..] == lines;
  }

  /** A report is a stretch of the lines that begins with a panic and is no longer than the limit; it is empty
      only when there was no panic. */
  lemma {:induction false} ReportIsAPanic(lines: seq<string>)
    ensures Report(lines).buffer == [] <==> forall l :: l in lines ==> !IsPanic(l)
    ensures Report(lines).buffer != [] ==>
      IsPanic(Report(lines).buffer[0]) && |Report(lines).buffer| <= MAX_STDERR_LINES
    ensures StretchOf(Report(lines), lines)
    decreases |lines|
  {
    hide IsPanic, StretchOf;
    var r := Report(lines);
    if lines == [] {
      WholeStretch(r, lines);
    } else if !IsPanic(lines[0]) {
      ReportIsAPanic(lines[1..]);
      assert lines == [lines[0]] + lines[1..];
      LaterStretch(r, lines, 1);
    } else {
      assert lines[0] in lines;
      var k := Min(MAX_STDERR_LINES + 1, |lines|);
      if |lines| <= MAX_STDERR_LINES || Report(lines[k..]).buffer == [] {
        WholeStretch(r, lines);
      } else {
        ReportIsAPanic(lines[k..]);
        LaterStretch(r, lines, k);
      }
    }
  }

  /** What is handed over of the lines pushed. */
  function HandedOver(lines: seq<string>): string {
    Cut(Join(SanitizeAll(Report(lines).buffer)), MAX_STDERR_LENGTH)
  }

  /** The report's text splits into the captured lines, which is what sanitising relies on. */
  lemma ReportSplits(lines: seq<string>)
    requires forall l :: l in lines ==> OneLine(l)
    ensures var captured := Report(lines).buffer;
      && (captured != [] ==> Split(Join(captured)) == captured)
      && SanitizeStderr(Join(captured)) == Join(SanitizeAll(captured))
  {
    hide Report, SanitizeStderr, SanitizeAll, Split;
    ReportIsAPanic(lines);
    var captured := Report(lines).buffer;
    forall l | l in captured ensures OneLine(l) {
      var i :| 0 <= i <= |lines| && captured <= lines[i..];
      assert l in lines[i..];
    }
    if captured != [] { SplitJoin(captured); }
    SanitizedByLine(captured);
  }

  /** Nothing is handed over unless there was a panic, and then no more than the limit, and the message of the panic
      is not in it. */
  lemma HandedOverIsRedacted(lines: seq<string>)
    ensures HandedOver(lines) == "" <==> forall l :: l in lines ==> !IsPanic(l)
    ensures HandedOver(lines) != "" ==>
      "panic: (REDACTED)" <= HandedOver(lines) && |HandedOver(lines)| <= MAX_STDERR_LENGTH
  {
    hide Report, SanitizeLine, IsPanic;
    ReportIsAPanic(lines);
    var captured := Report(lines).buffer;
    if captured != [] {
      PanicIsRedacted(captured[0]);
      assert SanitizeAll(captured)[0] == "panic: (REDACTED)";
      assert SanitizeAll(captured)[0] <= Join(SanitizeAll(captured));
    }
  }

  // ---------- the handler ----------

  class ReportingErrorHandler {
    const maxRestartCount: nat
    var restarts: seq<int>
    var stderrBuffer: seq<string>
    var capturingPanic: bool
    ghost var closes: seq<int>
    ghost var pushed: seq<string>   // since the buffer was last consumed

    ghost predicate Valid()
      reads this
    {
      && restarts == Remembered(maxRestartCount, closes)
      && Capture(stderrBuffer, capturingPanic) == TakeAll(Capture([], false), pushed)
      && forall l :: l in pushed ==> OneLine(l)
    }

    constructor (maxRestartCount: nat)
      ensures Valid() && closes == [] && pushed == [] && this.maxRestartCount == maxRestartCount
    {
      this.maxRestartCount := maxRestartCount;
      restarts, stderrBuffer, capturingPanic := [], [], false;
      closes, pushed := [], [];
    }

    method PushStderrLine(line: string)
      requires Valid()
      modifies this
      ensures Valid() && pushed == old(pushed) + Split(line)
      ensures closes == old(closes) && restarts == old(restarts)
    {
      hide Split, IsPanic, TakeAll, Remembered;
      SplitGivesLines(line);
      var lines := Split(line);
      ghost var start := Capture(stderrBuffer, capturingPanic);
      TakeNone(start, lines[..0]);
      for i := 0 to |lines|
        invariant Capture(stderrBuffer, capturingPanic) == TakeAll(start, lines[..i])
        invariant closes == old(closes) && restarts == old(restarts) && pushed == old(pushed)
      {
        var l := lines[i];
        TakeOneMore(start, lines, i);
        if !capturingPanic {
          if IsPanic(l) {
            stderrBuffer := [];
            capturingPanic := true;
          } else {
            continue;
          }
        }
        if |stderrBuffer| < MAX_STDERR_LINES {
          stderrBuffer := stderrBuffer + [l];
        } else {
          capturingPanic := false;
        }
      }
      TakeAllConcat(Capture([], false), pushed, lines);
      assert lines[..|lines|] == lines;
      pushed := pushed + lines;
    }

    /** The report, sanitised line by line and cut, and a clean start. */
    method ConsumeStderrBuffer() returns (text: string)
      requires Valid()
      modifies this
      ensures Valid() && text == HandedOver(old(pushed)) && pushed == []
      ensures closes == old(closes) && restarts == old(restarts)
    {
      hide SanitizeStderr, SanitizeAll;
      CaptureIsReport(pushed);
      ReportSplits(pushed);
      var raw := Join(stderrBuffer);
      stderrBuffer := [];
      capturingPanic := false;
      pushed := [];
      text := Cut(SanitizeStderr(raw), MAX_STDERR_LENGTH);
    }

    method Closed(now: int) returns (resultingAction: CloseAction, lastStderr: string)
      requires Valid()
      modifies this
      ensures Valid() && closes == old(closes) + [now] && pushed == []
      ensures resultingAction.DoNotRestart? <==> Refused(maxRestartCount, old(closes), now)
      ensures lastStderr == HandedOver(old(pushed))
    {
      assert (closes + [now])[..|closes|] == closes;
      restarts := restarts + [now];
      if |restarts| <= maxRestartCount {
        resultingAction := Restart;
      } else {
        var diff := restarts[|restarts| - 1] - restarts[0];
        if diff <= THREE_MINUTES {
          resultingAction := DoNotRestart;
        } else {
          restarts := restarts[1..];
          resultingAction := Restart;
        }
      }
      closes := closes + [now];
      lastStderr := ConsumeStderrBuffer();
    }
  }
}
