/** Clients that share one prompt queue and stop on a sentinel, over every interleaving of their steps. */
module ExtractionQueue {
  import opened Options

  datatype Item = Prompt(index: nat) | Sentinel

  /** A client waits for an item, processes a prompt, has met its sentinel, or died on a failing request. */
  datatype Client = Waiting | Processing(index: nat) | Stopped | Failed(index: nat)

  datatype State = State(queue: seq<Item>, clients: seq<Client>, results: seq<nat>, unfinished: int)

  /** One atomic step between two suspension points of a client. */
  datatype Action = Get(client: nat) | Complete(client: nat) | Raise(client: nat)

  // ----- the protocol -----

  /** All prompts in order, then one sentinel per client. */
  function FilledQueue(prompts: nat, clients: nat): (q: seq<Item>)
    ensures |q| == prompts + clients
    ensures forall i :: 0 <= i < |q| ==> q[i] == if i < prompts then Prompt(i) else Sentinel
  {
    seq(prompts, i requires 0 <= i => Prompt(i)) + seq(clients, i => Sentinel)
  }

  function Start(prompts: nat, clients: nat): State {
    State(FilledQueue(prompts, clients), seq(clients, i => Waiting), [], prompts + clients)
  }

  predicate Enabled(s: State, a: Action) {
    && a.client < |s.clients|
    && match a
       case Get(c) => s.clients[c].Waiting? && s.queue != []
       case Complete(c) => s.clients[c].Processing?
       case Raise(c) => s.clients[c].Processing?
  }

  /** A prompt is marked done after its result is stored, a sentinel at once, a failed prompt never. */
  function Apply(s: State, a: Action): State
    requires Enabled(s, a)
  {
    match a
    case Get(c) =>
      if s.queue[0].Sentinel?
      then State(s.queue[1..], s.clients[c := Stopped], s.results, s.unfinished - 1)
      else State(s.queue[1..], s.clients[c := Processing(s.queue[0].index)], s.results, s.unfinished)
    case Complete(c) =>
      State(s.queue, s.clients[c := Waiting], s.results + [s.clients[c].index], s.unfinished - 1)
    case Raise(c) =>
      State(s.queue, s.clients[c := Failed(s.clients[c].index)], s.results, s.unfinished)
  }

  /** The state after an interleaving, unless some step of it was not enabled. */
  function After(prompts: nat, clients: nat, run: seq<Action>): Option<State> {
    if run == [] then Some(Start(prompts, clients))
    else
      match After(prompts, clients, run[..|run| - 1])
      case None => None
      case Some(before) =>
        if Enabled(before, run[|run| - 1]) then Some(Apply(before, run[|run| - 1])) else None
  }

  /** `run` is an interleaving that leads from the start to `s`. */
  predicate Reaches(prompts: nat, clients: nat, run: seq<Action>, s: State) {
    After(prompts, clients, run) == Some(s)
  }

  predicate FailureFree(run: seq<Action>) {
    forall i :: 0 <= i < |run| ==> !run[i].Raise?
  }

  // ----- counting clients -----

  function Tally(clients: seq<Client>, f: Client -> nat): nat {
    if clients == [] then 0 else Tally(clients[..|clients| - 1], f) + f(clients[|clients| - 1])
  }

  lemma {:induction false} TallyUpdate(clients: seq<Client>, c: nat, x: Client, f: Client -> nat)
    requires c < |clients|
    ensures Tally(clients[c := x], f) + f(clients[c]) == Tally(clients, f) + f(x)
  {
    var n := |clients| - 1;
    if c < n {
      TallyUpdate(clients[..n], c, x, f);
      assert clients[c := x][..n] == clients[..n][c := x];
    } else {
      assert clients[c := x][..n] == clients[..n];
    }
  }

  lemma {:induction false} TallyEach(clients: seq<Client>, c: nat, f: Client -> nat)
    requires c < |clients|
    ensures f(clients[c]) <= Tally(clients, f)
  {
    if c < |clients| - 1 {
      TallyEach(clients[..|clients| - 1], c, f);
    }
  }

  lemma {:induction false} TallyBelow(clients: seq<Client>, f: Client -> nat, c: nat)
    requires c < |clients| && f(clients[c]) == 0 && forall x :: f(x) <= 1
    ensures Tally(clients, f) < |clients|
  {
    var n := |clients| - 1;
    if c < n {
      TallyBelow(clients[..n], f, c);
    } else {
      TallyAtMost(clients[..n], f);
    }
  }

  lemma {:induction false} TallyAtMost(clients: seq<Client>, f: Client -> nat)
    requires forall x :: f(x) <= 1
    ensures Tally(clients, f) <= |clients|
  {
    if clients != [] {
      TallyAtMost(clients[..|clients| - 1], f);
    }
  }

  lemma {:induction false} TallyAll(clients: seq<Client>, f: Client -> nat, x: nat)
    requires forall i :: 0 <= i < |clients| ==> f(clients[i]) == x
    ensures Tally(clients, f) == |clients| * x
  {
    if clients != [] {
      TallyAll(clients[..|clients| - 1], f, x);
      assert |clients| * x == (|clients| - 1) * x + x;
    }
  }

  const IsStopped: Client -> nat := (c: Client) => if c.Stopped? then 1 else 0
  const IsProcessing: Client -> nat := (c: Client) => if c.Processing? then 1 else 0
  const IsFailed: Client -> nat := (c: Client) => if c.Failed? then 1 else 0

  function Holds(index: nat): Client -> nat {
    (c: Client) => if (c.Processing? || c.Failed?) && c.index == index then 1 else 0
  }

  function Occurrences(results: seq<nat>, index: nat): nat {
    if results == [] then 0
    else Occurrences(results[..|results| - 1], index) + (if results[|results| - 1] == index then 1 else 0)
  }

  // ----- what every step keeps -----

  /** How many items have been taken. */
  function Taken(prompts: nat, clients: nat, s: State): int {
    prompts + clients - |s.queue|
  }

  function Least(a: int, b: int): int { if a < b then a else b }

  ghost predicate QueueKept(prompts: nat, clients: nat, s: State) {
    && |s.clients| == clients
    && |s.queue| <= prompts + clients
    && s.queue == FilledQueue(prompts, clients)[Taken(prompts, clients, s)..]
    && Tally(s.clients, IsStopped) == Taken(prompts, clients, s) - Least(Taken(prompts, clients, s), prompts)
  }

  /** Every taken prompt is with exactly one client or in the results exactly once; no other index occurs. */
  ghost predicate OnceKept(prompts: nat, clients: nat, s: State, index: nat) {
    Occurrences(s.results, index) + Tally(s.clients, Holds(index))
      == if index < Least(Taken(prompts, clients, s), prompts) then 1 else 0
  }

  ghost predicate CountsKept(prompts: nat, clients: nat, s: State) {
    && |s.results| + Tally(s.clients, IsProcessing) + Tally(s.clients, IsFailed)
       == Least(Taken(prompts, clients, s), prompts)
    && s.unfinished == |s.queue| + Tally(s.clients, IsProcessing) + Tally(s.clients, IsFailed)
  }

  ghost predicate Kept(prompts: nat, clients: nat, s: State) {
    && QueueKept(prompts, clients, s)
    && CountsKept(prompts, clients, s)
    && forall index: nat :: OnceKept(prompts, clients, s, index)
  }

  lemma StartKept(prompts: nat, clients: nat)
    ensures Kept(prompts, clients, Start(prompts, clients))
  {
    var s := Start(prompts, clients);
    TallyAll(s.clients, IsStopped, 0);
    TallyAll(s.clients, IsProcessing, 0);
    TallyAll(s.clients, IsFailed, 0);
    forall index: nat ensures OnceKept(prompts, clients, s, index) {
      TallyAll(s.clients, Holds(index), 0);
    }
  }

  lemma HeadOfQueue(prompts: nat, clients: nat, s: State)
    requires QueueKept(prompts, clients, s) && s.queue != []
    ensures var k := Taken(prompts, clients, s);
            s.queue[0] == (if k < prompts then Prompt(k) else Sentinel)
            && s.queue[1..] == FilledQueue(prompts, clients)[k + 1..]
  {
  }

  lemma QueueStep(prompts: nat, clients: nat, s: State, a: Action)
    requires QueueKept(prompts, clients, s) && Enabled(s, a)
    ensures QueueKept(prompts, clients, Apply(s, a))
  {
    TallyUpdate(s.clients, a.client, Apply(s, a).clients[a.client], IsStopped);
    if a.Get? {
      HeadOfQueue(prompts, clients, s);
    }
  }

  lemma CountsStep(prompts: nat, clients: nat, s: State, a: Action)
    requires QueueKept(prompts, clients, s) && CountsKept(prompts, clients, s) && Enabled(s, a)
    ensures CountsKept(prompts, clients, Apply(s, a))
  {
    TallyUpdate(s.clients, a.client, Apply(s, a).clients[a.client], IsProcessing);
    TallyUpdate(s.clients, a.client, Apply(s, a).clients[a.client], IsFailed);
    if a.Get? {
      HeadOfQueue(prompts, clients, s);
    }
  }

  lemma OnceGet(prompts: nat, clients: nat, s: State, c: nat, index: nat)
    requires QueueKept(prompts, clients, s) && OnceKept(prompts, clients, s, index) && Enabled(s, Get(c))
    ensures OnceKept(prompts, clients, Apply(s, Get(c)), index)
  {
    var next := Apply(s, Get(c));
    HeadOfQueue(prompts, clients, s);
    TallyUpdate(s.clients, c, next.clients[c], Holds(index));
  }

  lemma OnceComplete(prompts: nat, clients: nat, s: State, c: nat, index: nat)
    requires OnceKept(prompts, clients, s, index) && Enabled(s, Complete(c))
    ensures OnceKept(prompts, clients, Apply(s, Complete(c)), index)
  {
    TallyUpdate(s.clients, c, Waiting, Holds(index));
    OneOccurrence(s.results, s.clients[c].index, index);
  }

  lemma OneOccurrence(results: seq<nat>, last: nat, index: nat)
    ensures Occurrences(results + [last], index) == Occurrences(results, index) + (if last == index then 1 else 0)
  {
    assert (results + [last])[..|results|] == results;
  }

  lemma OnceRaise(prompts: nat, clients: nat, s: State, c: nat, index: nat)
    requires OnceKept(prompts, clients, s, index) && Enabled(s, Raise(c))
    ensures OnceKept(prompts, clients, Apply(s, Raise(c)), index)
  {
    TallyUpdate(s.clients, c, Failed(s.clients[c].index), Holds(index));
  }

  lemma OnceStep(prompts: nat, clients: nat, s: State, a: Action, index: nat)
    requires QueueKept(prompts, clients, s) && OnceKept(prompts, clients, s, index) && Enabled(s, a)
    ensures OnceKept(prompts, clients, Apply(s, a), index)
  {
    match a
    case Get(c) => OnceGet(prompts, clients, s, c, index);
    case Complete(c) => OnceComplete(prompts, clients, s, c, index);
    case Raise(c) => OnceRaise(prompts, clients, s, c, index);
  }

  lemma StepKept(prompts: nat, clients: nat, s: State, a: Action)
    requires Kept(prompts, clients, s) && Enabled(s, a)
    ensures Kept(prompts, clients, Apply(s, a))
  {
    QueueStep(prompts, clients, s, a);
    CountsStep(prompts, clients, s, a);
    forall index: nat ensures OnceKept(prompts, clients, Apply(s, a), index) {
      OnceStep(prompts, clients, s, a, index);
    }
  }

  // ----- every run -----

  /** Steps still to come if no client fails: two per queued prompt, one per sentinel and per request under way. */
  function Remaining(prompts: nat, clients: nat, s: State): int {
    var k := Taken(prompts, clients, s);
    |s.queue| + (prompts - Least(k, prompts)) + Tally(s.clients, IsProcessing)
  }

  lemma StepCounts(prompts: nat, clients: nat, s: State, a: Action)
    requires QueueKept(prompts, clients, s) && Enabled(s, a)
    ensures Remaining(prompts, clients, Apply(s, a)) == Remaining(prompts, clients, s) - 1
    ensures Tally(Apply(s, a).clients, IsFailed) == Tally(s.clients, IsFailed) + (if a.Raise? then 1 else 0)
  {
    TallyUpdate(s.clients, a.client, Apply(s, a).clients[a.client], IsProcessing);
    TallyUpdate(s.clients, a.client, Apply(s, a).clients[a.client], IsFailed);
    if a.Get? {
      HeadOfQueue(prompts, clients, s);
    }
  }

  /** Conservation over whole runs, with or without failing requests. */
  lemma {:induction false} RunKept(prompts: nat, clients: nat, run: seq<Action>, s: State)
    requires Reaches(prompts, clients, run, s)
    ensures Kept(prompts, clients, s)
    ensures |run| + Remaining(prompts, clients, s) == 2 * prompts + clients
    ensures FailureFree(run) ==> Tally(s.clients, IsFailed) == 0
  {
    if run == [] {
      StartKept(prompts, clients);
      TallyAll(s.clients, IsProcessing, 0);
      TallyAll(s.clients, IsFailed, 0);
    } else {
      var n := |run| - 1;
      var before := After(prompts, clients, run[..n]).value;
      RunKept(prompts, clients, run[..n], before);
      StepKept(prompts, clients, before, run[n]);
      StepCounts(prompts, clients, before, run[n]);
    }
  }

  /** A waiting client never meets an empty queue, so `get` never blocks. */
  lemma WaitingFindsItem(prompts: nat, clients: nat, run: seq<Action>, s: State, c: nat)
    requires Reaches(prompts, clients, run, s) && c < |s.clients| && s.clients[c].Waiting?
    ensures Enabled(s, Get(c))
  {
    RunKept(prompts, clients, run, s);
    TallyBelow(s.clients, IsStopped, c);
  }

  /** No sentinel is met while a prompt is still queued. */
  lemma SentinelAfterPrompts(prompts: nat, clients: nat, run: seq<Action>, s: State, c: nat)
    requires Reaches(prompts, clients, run, s) && c < |s.clients| && s.clients[c].Stopped?
    ensures forall i :: 0 <= i < |s.queue| ==> s.queue[i].Sentinel?
  {
    RunKept(prompts, clients, run, s);
    TallyEach(s.clients, c, IsStopped);
  }

  /** The sentinels left are exactly those of the clients that have not stopped. */
  lemma SentinelPerClient(prompts: nat, clients: nat, run: seq<Action>, s: State)
    requires Reaches(prompts, clients, run, s)
    ensures |s.queue| >= clients - Tally(s.clients, IsStopped)
    ensures forall i :: 0 <= i < |s.queue| ==>
              (s.queue[i].Sentinel? <==> |s.queue| - i <= clients - Tally(s.clients, IsStopped))
  {
    RunKept(prompts, clients, run, s);
  }

  ghost predicate Halted(s: State) {
    forall a :: !Enabled(s, a)
  }

  /** A run halts exactly when every client has stopped or failed. */
  lemma HaltsWhenAllDone(prompts: nat, clients: nat, run: seq<Action>, s: State)
    requires Reaches(prompts, clients, run, s)
    ensures Halted(s) <==> forall c :: 0 <= c < |s.clients| ==> s.clients[c].Stopped? || s.clients[c].Failed?
  {
    if Halted(s) {
      forall c | 0 <= c < |s.clients| ensures s.clients[c].Stopped? || s.clients[c].Failed? {
        assert !Enabled(s, Get(c)) && !Enabled(s, Complete(c));
        if s.clients[c].Waiting? {
          WaitingFindsItem(prompts, clients, run, s, c);
        }
      }
    }
  }

  lemma {:induction false} StoppedOrFailed(clients: seq<Client>)
    requires forall c :: 0 <= c < |clients| ==> clients[c].Stopped? || clients[c].Failed?
    ensures Tally(clients, IsStopped) + Tally(clients, IsFailed) == |clients|
    ensures Tally(clients, IsProcessing) == 0
  {
    if clients != [] {
      StoppedOrFailed(clients[..|clients| - 1]);
    }
  }

  lemma {:induction false} NoneHold(clients: seq<Client>, index: nat)
    requires forall c :: 0 <= c < |clients| ==> clients[c].Stopped?
    ensures Tally(clients, Holds(index)) == 0
  {
    TallyAll(clients, Holds(index), 0);
  }

  lemma {:induction false} NoneFailed(clients: seq<Client>)
    requires Tally(clients, IsFailed) == 0
    ensures forall c :: 0 <= c < |clients| ==> !clients[c].Failed?
  {
    forall c | 0 <= c < |clients| ensures !clients[c].Failed? {
      TallyEach(clients, c, IsFailed);
    }
  }

  /**
   * Without a failing request, every halted run has taken the same number of steps, emptied the queue, marked
   * every item done and stored the result of every prompt exactly once.
   */
  lemma EveryPromptOnce(prompts: nat, clients: nat, run: seq<Action>, s: State)
    requires Reaches(prompts, clients, run, s) && Halted(s) && FailureFree(run) && 0 < clients
    ensures |run| == 2 * prompts + clients
    ensures s.queue == [] && s.unfinished == 0 && |s.results| == prompts
    ensures forall index: nat :: Occurrences(s.results, index) == if index < prompts then 1 else 0
    ensures forall c :: 0 <= c < |s.clients| ==> s.clients[c].Stopped?
  {
    RunKept(prompts, clients, run, s);
    HaltsWhenAllDone(prompts, clients, run, s);
    NoneFailed(s.clients);
    StoppedOrFailed(s.clients);
    forall index: nat ensures Occurrences(s.results, index) == if index < prompts then 1 else 0 {
      NoneHold(s.clients, index);
      assert OnceKept(prompts, clients, s, index);
    }
  }

  /**
   * With failures, a halted run in which some client survived has taken every prompt and leaves one sentinel,
   * and one unfinished prompt, per failed client.
   */
  lemma FailuresLeaveSentinels(prompts: nat, clients: nat, run: seq<Action>, s: State)
    requires Reaches(prompts, clients, run, s) && Halted(s)
    requires Tally(s.clients, IsFailed) < clients
    ensures var failed := Tally(s.clients, IsFailed);
            && |s.queue| == failed && s.unfinished == 2 * failed
            && |s.results| == prompts - failed
            && forall i :: 0 <= i < |s.queue| ==> s.queue[i].Sentinel?
  {
    RunKept(prompts, clients, run, s);
    HaltsWhenAllDone(prompts, clients, run, s);
    StoppedOrFailed(s.clients);
  }

  /** No run is longer than two steps per prompt and one per client, so every run halts. */
  lemma RunsAreBounded(prompts: nat, clients: nat, run: seq<Action>, s: State)
    requires Reaches(prompts, clients, run, s)
    ensures |run| <= 2 * prompts + clients
  {
    RunKept(prompts, clients, run, s);
  }
}
