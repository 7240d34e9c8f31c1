/** The promise chains that serialise operations (packages/vscode-typescript/src/session.ts:133-137, 155-159). */
module PromiseQueues {

  // ---------- what the chains are for ----------

  /** A queue that runs one task at a time, in order. */
  datatype Queue<T> = Queue(waiting: seq<T>, running: bool, finished: nat)

  function Push<T>(q: Queue<T>, task: T): Queue<T> {
    q.(waiting := q.waiting + [task])
  }

  predicate CanPop<T>(q: Queue<T>) {
    !q.running && q.waiting != []
  }

  function Pop<T>(q: Queue<T>): Queue<T>
    requires CanPop(q)
  {
    q.(waiting := q.waiting[1..], running := true)
  }

  function Finish<T>(q: Queue<T>): Queue<T>
    requires q.running
  {
    q.(running := false, finished := q.finished + 1)
  }

  // ---------- what the code builds ----------

  datatype Promise = Pending | Fulfilled | Rejected

  /** Enqueuing task k makes results[k], which is tails[k].then(task k), and tails[k + 1], which is
      results[k].catch(() => {}). started lists the tasks in the order in which they began. */
  datatype Chain<T> = Chain(tasks: seq<T>, tails: seq<Promise>, results: seq<Promise>, started: seq<nat>)

  datatype Step<T> =
    | Enqueue(task: T)
    | Start(k: nat)               // tails[k] is fulfilled: its then-callback runs
    | Skip(k: nat)                // tails[k] is rejected: results[k] is rejected without running the callback
    | Settle(k: nat, ok: bool)    // the running task resolves or rejects
    | Recover(k: nat)             // the catch behind results[k] takes effect

  predicate Shaped<T>(c: Chain<T>) {
    |c.results| == |c.tasks| && |c.tails| == |c.tasks| + 1
  }

  predicate Enabled<T>(c: Chain<T>, e: Step<T>)
    requires Shaped(c)
  {
    match e
    case Enqueue(_) => true
    case Start(k) => k < |c.tasks| && c.tails[k] == Fulfilled && k !in c.started
    case Skip(k) => k < |c.tasks| && c.tails[k] == Rejected && c.results[k] == Pending
    case Settle(k, _) => k < |c.tasks| && k in c.started && c.results[k] == Pending
    case Recover(k) => k < |c.tasks| && c.results[k] != Pending && c.tails[k + 1] == Pending
  }

  function Take<T>(c: Chain<T>, e: Step<T>): (r: Chain<T>)
    requires Shaped(c) && Enabled(c, e)
    ensures Shaped(r)
  {
    match e
    case Enqueue(task) => Chain(c.tasks + [task], c.tails + [Pending], c.results + [Pending], c.started)
    case Start(k) => c.(started := c.started + [k])
    case Skip(k) => c.(results := c.results[k := Rejected])
    case Settle(k, ok) => c.(results := c.results[k := if ok then Fulfilled else Rejected])
    case Recover(k) => c.(tails := c.tails[k + 1 := Fulfilled])
  }

  function NewChain<T>(): (c: Chain<T>)
    ensures Shaped(c)
  {
    Chain([], [Fulfilled], [], [])
  }

  // ---------- the invariant ----------

  predicate InOrder(started: seq<nat>) {
    forall i :: 0 <= i < |started| ==> started[i] == i
  }

  predicate Invariant<T>(c: Chain<T>) {
    var n := |c.started|;
    && Shaped(c)
    && n <= |c.tasks|
    && InOrder(c.started)
    && c.tails[0] == Fulfilled
    && (forall k :: 0 <= k < n ==> c.tails[k] == Fulfilled)
    && (forall k :: 0 <= k < n - 1 ==> c.results[k] != Pending)
    && (n > 0 ==> c.tails[n] != Rejected && (c.tails[n] == Fulfilled ==> c.results[n - 1] != Pending))
    && (forall k :: n < k < |c.tails| ==> c.tails[k] == Pending)
    && (forall k :: n <= k < |c.results| ==> c.results[k] == Pending)
  }

  predicate Running<T>(c: Chain<T>, k: nat)
    requires Shaped(c)
  {
    k < |c.tasks| && k in c.started && c.results[k] == Pending
  }

  /** The queue a chain stands for. */
  function Abs<T>(c: Chain<T>): Queue<T>
    requires Invariant(c)
  {
    var n := |c.started|;
    var running := n > 0 && c.results[n - 1] == Pending;
    Queue(c.tasks[n..], running, if running then n - 1 else n)
  }

  lemma StartedBelow(started: seq<nat>, k: nat)
    requires InOrder(started)
    ensures k in started <==> k < |started|
  {
    if k < |started| { assert started[k] == k; }
  }

  /** Every step of a chain is the matching step of the queue, whatever the tasks settle with. */
  lemma StepRefinesQueue<T>(c: Chain<T>, e: Step<T>)
    requires Invariant(c) && Enabled(c, e)
    ensures Invariant(Take(c, e))
    ensures match e
      case Enqueue(task) => Abs(Take(c, e)) == Push(Abs(c), task)
      case Start(k) => CanPop(Abs(c)) && Abs(c).waiting[0] == c.tasks[k] && Abs(Take(c, e)) == Pop(Abs(c))
      case Skip(k) => false
      case Settle(k, _) => Abs(c).running && k == Abs(c).finished && Abs(Take(c, e)) == Finish(Abs(c))
      case Recover(k) => Abs(Take(c, e)) == Abs(c)
  {
    var n := |c.started|;
    match e
    case Enqueue(task) =>
      assert (c.tasks + [task])[n..] == c.tasks[n..] + [task];
    case Start(k) => StartedBelow(c.started, k);
    case Skip(k) =>
    case Settle(k, ok) => StartedBelow(c.started, k);
    case Recover(k) =>
  }

  // ---------- whole runs ----------

  predicate IsHistory<T>(c: Chain<T>, events: seq<Step<T>>)
    requires Shaped(c)
    decreases |events|
  {
    events == [] || (Enabled(c, events[0]) && IsHistory(Take(c, events[0]), events[1..]))
  }

  function AfterSteps<T>(c: Chain<T>, events: seq<Step<T>>): (r: Chain<T>)
    requires Shaped(c) && IsHistory(c, events)
    ensures Shaped(r)
    decreases |events|
  {
    if events == [] then c else AfterSteps(Take(c, events[0]), events[1..])
  }

  lemma {:induction false} InvariantAfter<T>(c: Chain<T>, events: seq<Step<T>>)
    requires Invariant(c) && IsHistory(c, events)
    ensures Invariant(AfterSteps(c, events))
    decreases |events|
  {
    if events != [] {
      StepRefinesQueue(c, events[0]);
      InvariantAfter(Take(c, events[0]), events[1..]);
    }
  }

  /** In every run the tasks begin in the order they were enqueued, each after all earlier ones have settled,
      so never two at a time, and none is skipped because an earlier one was rejected. */
  lemma OneAtATimeInOrder<T>(events: seq<Step<T>>)
    requires IsHistory(NewChain<T>(), events)
    ensures var c := AfterSteps(NewChain<T>(), events);
      && InOrder(c.started)
      && (forall j: nat, k: nat :: j < k < |c.tasks| && k in c.started ==> j in c.started && c.results[j] != Pending)
      && (forall j: nat, k: nat :: Running(c, j) && Running(c, k) ==> j == k)
      && (forall k: nat :: !Enabled(c, Skip(k)))
  {
    InvariantAfter(NewChain<T>(), events);
    var c := AfterSteps(NewChain<T>(), events);
    hide IsHistory, AfterSteps;
    forall k: nat ensures k in c.started <==> k < |c.started| { StartedBelow(c.started, k); }
  }

  /** A task that waits is never stuck: when nothing runs, the chain can move on, and a recovery in between
      is followed by the next start. */
  lemma NeverStuck<T>(events: seq<Step<T>>)
    requires IsHistory(NewChain<T>(), events)
    ensures var c := AfterSteps(NewChain<T>(), events); var n := |c.started|;
      n < |c.tasks| && (forall k: nat :: !Running(c, k)) ==>
        Enabled(c, Start(n)) ||
        (n > 0 && Enabled(c, Recover(n - 1)) && Enabled(Take(c, Recover(n - 1)), Start(n)))
  {
    InvariantAfter(NewChain<T>(), events);
    var c := AfterSteps(NewChain<T>(), events);
    hide IsHistory, AfterSteps;
    var n := |c.started|;
    StartedBelow(c.started, n);
    if n > 0 {
      StartedBelow(c.started, n - 1);
      assert !Running(c, n - 1) ==> c.results[n - 1] != Pending;
    }
  }
}
