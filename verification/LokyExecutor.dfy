/** loky_executor.py with task-count retirement as the only retirement: countdown workers, the
    manager's reaction to their own-pid messages, and the refill loop. */
module LokyExecutor {
  import opened Options
  import opened CountdownWorker

  /** Running; left after its own-pid message; or removed from the process table. */
  datatype Status = Running | Retired | Reaped

  /** A worker process: the task in its hands, if any, and how many it has completed. */
  datatype Worker = Worker(status: Status, hand: Option<nat>, completed: nat)

  /** Tasks are identified by numbers; a worker's index is its pid. */
  datatype State = State(queue: seq<nat>, workers: seq<Worker>, processes: set<nat>, submitted: seq<nat>,
                         results: seq<nat>)

  datatype Event = Submit(task: nat) | Dequeue(pid: nat) | Finish(pid: nat) | Reap(pid: nat)

  const FRESH_WORKER := Worker(Running, None, 0)

  // ----------------------------------------------------------- refill loop

  /** The process table after _adjust_process_count; a pid still in use cannot be drawn again. */
  function Refill(s: State, maxWorkers: nat): State
    decreases maxWorkers - |s.processes|
  {
    if |s.processes| >= maxWorkers || |s.workers| in s.processes then s
    else Refill(Spawn(s), maxWorkers)
  }

  function Spawn(s: State): (r: State)
    ensures |s.workers| !in s.processes ==> |r.processes| == |s.processes| + 1
  {
    s.(processes := s.processes + {|s.workers|}, workers := s.workers + [FRESH_WORKER])
  }

  class Executor {
    const maxWorkers: nat
    const retireAfter: Option<int>
    var processes: set<nat>
    var workers: seq<Worker>

    constructor (maxWorkers: nat, retireAfter: Option<int>)
      ensures this.maxWorkers == maxWorkers && this.retireAfter == retireAfter && processes == {} && workers == []
    {
      this.maxWorkers, this.retireAfter := maxWorkers, retireAfter;
      processes, workers := {}, [];
    }

    /** _adjust_process_count: without task-count retirement it is left to loky's own refill,
        otherwise it spawns countdown workers until the table is full. */
    method AdjustProcessCount(ghost s: State) returns (inherited: bool)
      requires s.processes == processes && s.workers == workers
      requires forall p :: p in processes ==> p < |workers|
      modifies this
      ensures inherited <==> retireAfter.None?
      ensures inherited ==> processes == old(processes) && workers == old(workers)
      ensures !inherited ==> processes == Refill(s, maxWorkers).processes && workers == Refill(s, maxWorkers).workers
      ensures !inherited ==> |processes| == if |old(processes)| <= maxWorkers then maxWorkers else |old(processes)|
      ensures |workers| - |old(workers)| == |processes| - |old(processes)|
    {
      if retireAfter.None? {
        return true;
      }
      ghost var now := s;
      while |processes| < maxWorkers
        invariant now.processes == processes && now.workers == workers
        invariant forall p :: p in processes ==> p < |workers|
        invariant |processes| <= maxWorkers || processes == old(processes)
        invariant Refill(now, maxWorkers) == Refill(s, maxWorkers)
        invariant |workers| - |old(workers)| == |processes| - |old(processes)|
      {
        processes := processes + {|workers|};
        workers := workers + [FRESH_WORKER];
        now := Spawn(now);
      }
      inherited := false;
    }
  }

  // ------------------------------------------------------------ the system

  function Initial(maxWorkers: nat): State {
    Refill(State([], [], {}, [], []), maxWorkers)
  }

  predicate Enabled(s: State, e: Event) {
    match e
    case Submit(_) => true
    case Dequeue(p) => s.queue != [] && p < |s.workers| && s.workers[p].status == Running && s.workers[p].hand.None?
    case Finish(p) => p < |s.workers| && s.workers[p].status == Running && s.workers[p].hand.Some?
    case Reap(p) => p < |s.workers| && s.workers[p].status == Retired
  }

  /** retireAfter is the limit every worker is started with; a worker that reaches it sends its
      pid, and the manager then drops it from the table and refills. */
  function Next(s: State, maxWorkers: nat, retireAfter: int, e: Event): State
    requires Enabled(s, e)
  {
    match e
    case Submit(t) => s.(queue := s.queue + [t], submitted := s.submitted + [t])
    case Dequeue(p) => s.(queue := s.queue[1..], workers := s.workers[p := s.workers[p].(hand := Some(s.queue[0]))])
    case Finish(p) =>
      var w := s.workers[p];
      var n := w.completed + 1;
      s.(results := s.results + [w.hand.value],
         workers := s.workers[p := Worker(if CountReached(Some(retireAfter), n) then Retired else Running, None, n)])
    case Reap(p) =>
      Refill(s.(workers := s.workers[p := s.workers[p].(status := Reaped)], processes := s.processes - {p}), maxWorkers)
  }

  predicate IsRun(s: State, maxWorkers: nat, retireAfter: int, events: seq<Event>)
    decreases |events|
  {
    events == [] ||
    (Enabled(s, events[0]) && IsRun(Next(s, maxWorkers, retireAfter, events[0]), maxWorkers, retireAfter, events[1..]))
  }

  function Run(s: State, maxWorkers: nat, retireAfter: int, events: seq<Event>): State
    requires IsRun(s, maxWorkers, retireAfter, events)
    decreases |events|
  {
    if events == [] then s
    else Run(Next(s, maxWorkers, retireAfter, events[0]), maxWorkers, retireAfter, events[1..])
  }

  // ------------------------------------------------------- sums over workers

  function Completed(ws: seq<Worker>): nat {
    if ws == [] then 0 else Completed(ws[..|ws| - 1]) + ws[|ws| - 1].completed
  }

  function Hands(ws: seq<Worker>): multiset<nat> {
    if ws == [] then multiset{}
    else Hands(ws[..|ws| - 1]) + HandOf(ws[|ws| - 1])
  }

  function HandOf(w: Worker): multiset<nat> {
    if w.hand.Some? then multiset{w.hand.value} else multiset{}
  }

  function CountStatus(ws: seq<Worker>, status: Status): nat {
    if ws == [] then 0
    else CountStatus(ws[..|ws| - 1], status) + if ws[|ws| - 1].status == status then 1 else 0
  }

  lemma {:induction false} UpdateSums(ws: seq<Worker>, p: nat, w: Worker)
    requires p < |ws|
    ensures Completed(ws[p := w]) == Completed(ws) - ws[p].completed + w.completed
    ensures Hands(ws[p := w]) + HandOf(ws[p]) == Hands(ws) + HandOf(w)
    ensures forall st :: CountStatus(ws[p := w], st) + (if ws[p].status == st then 1 else 0) ==
                         CountStatus(ws, st) + (if w.status == st then 1 else 0)
  {
    UpdateCompleted(ws, p, w);
    UpdateHandSum(ws, p, w);
    forall st ensures CountStatus(ws[p := w], st) + (if ws[p].status == st then 1 else 0) ==
                      CountStatus(ws, st) + (if w.status == st then 1 else 0)
    {
      UpdateCount(ws, p, w, st);
    }
  }

  lemma {:induction false} UpdateCompleted(ws: seq<Worker>, p: nat, w: Worker)
    requires p < |ws|
    ensures Completed(ws[p := w]) == Completed(ws) - ws[p].completed + w.completed
  {
    var n := |ws| - 1;
    UpdateFront(ws, p, w);
    if p < n { UpdateCompleted(ws[..n], p, w); }
  }

  lemma {:induction false} UpdateHandSum(ws: seq<Worker>, p: nat, w: Worker)
    requires p < |ws|
    ensures Hands(ws[p := w]) + HandOf(ws[p]) == Hands(ws) + HandOf(w)
  {
    hide Hands, HandOf;
    var n := |ws| - 1;
    var us := ws[p := w];
    UpdateFront(ws, p, w);
    HandsUnfold(ws);
    HandsUnfold(us);
    if p < n {
      UpdateHandSum(ws[..n], p, w);
      Regroup(Hands(us[..n]), HandOf(ws[p]), Hands(ws[..n]), HandOf(w), HandOf(ws[n]));
    } else {
      assert (Hands(ws[..n]) + HandOf(w)) + HandOf(ws[p]) == (Hands(ws[..n]) + HandOf(ws[p])) + HandOf(w);
    }
  }

  lemma HandsUnfold(ws: seq<Worker>)
    requires ws != []
    ensures Hands(ws) == Hands(ws[..|ws| - 1]) + HandOf(ws[|ws| - 1])
  {
  }

  /** An equation of sums keeps holding when both sides gain the same. */
  lemma Regroup(a: multiset<nat>, b: multiset<nat>, c: multiset<nat>, d: multiset<nat>, last: multiset<nat>)
    requires a + b == c + d
    ensures (a + last) + b == (c + last) + d
  {
    assert (a + last) + b == (a + b) + last == (c + d) + last == (c + last) + d;
  }

  lemma {:induction false} UpdateCount(ws: seq<Worker>, p: nat, w: Worker, st: Status)
    requires p < |ws|
    ensures CountStatus(ws[p := w], st) + (if ws[p].status == st then 1 else 0) ==
            CountStatus(ws, st) + (if w.status == st then 1 else 0)
  {
    var n := |ws| - 1;
    UpdateFront(ws, p, w);
    if p < n { UpdateCount(ws[..n], p, w, st); }
  }

  lemma UpdateFront(ws: seq<Worker>, p: nat, w: Worker)
    requires p < |ws|
    ensures var n := |ws| - 1; ws[p := w][..n] == if p == n then ws[..n] else ws[..n][p := w]
  {
  }

  /** A worker takes a task, gives one up, or keeps its hands as they are. */
  lemma UpdateHands(ws: seq<Worker>, p: nat, w: Worker)
    requires p < |ws|
    ensures ws[p].hand.None? && w.hand.Some? ==> Hands(ws[p := w]) == Hands(ws) + multiset{w.hand.value}
    ensures ws[p].hand.Some? && w.hand.None? ==> Hands(ws[p := w]) + multiset{ws[p].hand.value} == Hands(ws)
    ensures ws[p].hand == w.hand ==> Hands(ws[p := w]) == Hands(ws)
  {
    hide Hands;
    UpdateSums(ws, p, w);
    assert Hands(ws[p := w]) + multiset{} == Hands(ws[p := w]) && Hands(ws) + multiset{} == Hands(ws);
    if ws[p].hand == w.hand {
      var h := HandOf(w);
      assert Hands(ws[p := w]) == (Hands(ws[p := w]) + h) - h == (Hands(ws) + h) - h == Hands(ws);
    }
  }

  lemma AppendSums(ws: seq<Worker>, w: Worker)
    ensures Completed(ws + [w]) == Completed(ws) + w.completed
    ensures Hands(ws + [w]) == Hands(ws) + HandOf(w)
    ensures forall st :: CountStatus(ws + [w], st) == CountStatus(ws, st) + if w.status == st then 1 else 0
  {
    assert (ws + [w])[..|ws|] == ws;
  }

  // -------------------------------------------------------------- invariant

  predicate WorkerOk(s: State, quota: nat, p: nat)
    requires p < |s.workers|
  {
    var w := s.workers[p];
    && (p in s.processes <==> w.status != Reaped)
    && (w.status == Running ==> w.completed < quota)
    && (w.status != Running ==> w.completed == quota && w.hand.None?)
  }

  /** Everything but the size of the process table. */
  ghost predicate Sound(s: State, quota: nat) {
    && (forall p :: p in s.processes ==> p < |s.workers|)
    && (forall p :: 0 <= p < |s.workers| ==> WorkerOk(s, quota, p))
    && |s.workers| == |s.processes| + CountStatus(s.workers, Reaped)
    && |s.results| == Completed(s.workers)
    && multiset(s.submitted) == multiset(s.queue) + Hands(s.workers) + multiset(s.results)
  }

  ghost predicate Inv(s: State, maxWorkers: nat, retireAfter: int) {
    Sound(s, Quota(retireAfter)) && |s.processes| == maxWorkers
  }

  lemma {:induction false} RefillKeeps(s: State, maxWorkers: nat, quota: nat)
    requires Sound(s, quota) && |s.processes| <= maxWorkers && quota >= 1
    ensures var r := Refill(s, maxWorkers);
            && Sound(r, quota) && |r.processes| == maxWorkers
            && r.queue == s.queue && r.submitted == s.submitted && r.results == s.results
            && |r.workers| == |s.workers| + maxWorkers - |s.processes|
            && Hands(r.workers) == Hands(s.workers)
            && CountStatus(r.workers, Retired) == CountStatus(s.workers, Retired)
    decreases maxWorkers - |s.processes|
  {
    hide Hands, Completed, CountStatus;
    if |s.processes| < maxWorkers {
      var r := Spawn(s);
      AppendSums(s.workers, FRESH_WORKER);
      forall p | 0 <= p < |r.workers| ensures WorkerOk(r, quota, p) {
        assert p < |s.workers| ==> WorkerOk(s, quota, p);
      }
      RefillKeeps(r, maxWorkers, quota);
    }
  }

  lemma InitialInv(maxWorkers: nat, retireAfter: int)
    ensures Inv(Initial(maxWorkers), maxWorkers, retireAfter)
  {
    RefillKeeps(State([], [], {}, [], []), maxWorkers, Quota(retireAfter));
  }

  lemma DequeueKeepsInv(s: State, maxWorkers: nat, retireAfter: int, p: nat)
    requires Inv(s, maxWorkers, retireAfter) && Enabled(s, Dequeue(p))
    ensures Inv(Next(s, maxWorkers, retireAfter, Dequeue(p)), maxWorkers, retireAfter)
  {
    hide Hands, Completed, CountStatus;
    var s' := Next(s, maxWorkers, retireAfter, Dequeue(p));
    UpdateSums(s.workers, p, s'.workers[p]);
    UpdateHands(s.workers, p, s'.workers[p]);
    assert s'.workers == s.workers[p := s'.workers[p]];
    assert s.queue == [s.queue[0]] + s.queue[1..];
    forall q | 0 <= q < |s'.workers| ensures WorkerOk(s', Quota(retireAfter), q) {
      assert WorkerOk(s, Quota(retireAfter), q);
    }
  }

  lemma FinishKeepsInv(s: State, maxWorkers: nat, retireAfter: int, p: nat)
    requires Inv(s, maxWorkers, retireAfter) && Enabled(s, Finish(p))
    ensures Inv(Next(s, maxWorkers, retireAfter, Finish(p)), maxWorkers, retireAfter)
  {
    hide Hands, Completed, CountStatus;
    var s' := Next(s, maxWorkers, retireAfter, Finish(p));
    UpdateSums(s.workers, p, s'.workers[p]);
    UpdateHands(s.workers, p, s'.workers[p]);
    assert s'.workers == s.workers[p := s'.workers[p]];
    assert WorkerOk(s, Quota(retireAfter), p);
    forall q | 0 <= q < |s'.workers| ensures WorkerOk(s', Quota(retireAfter), q) {
      assert WorkerOk(s, Quota(retireAfter), q);
    }
  }

  /** The table before the refill is one short. */
  function Drop(s: State, p: nat): State
    requires p < |s.workers|
  {
    s.(workers := s.workers[p := s.workers[p].(status := Reaped)], processes := s.processes - {p})
  }

  lemma DropIsSound(s: State, quota: nat, p: nat)
    requires Sound(s, quota) && Enabled(s, Reap(p))
    ensures Sound(Drop(s, p), quota) && |Drop(s, p).processes| == |s.processes| - 1
    ensures Hands(Drop(s, p).workers) == Hands(s.workers)
    ensures CountStatus(Drop(s, p).workers, Retired) == CountStatus(s.workers, Retired) - 1
  {
    hide Hands, Completed, CountStatus;
    var s' := Drop(s, p);
    UpdateSums(s.workers, p, s'.workers[p]);
    UpdateHands(s.workers, p, s'.workers[p]);
    assert s'.workers == s.workers[p := s'.workers[p]];
    assert WorkerOk(s, quota, p);
    forall q | 0 <= q < |s'.workers| ensures WorkerOk(s', quota, q) { assert WorkerOk(s, quota, q); }
  }

  lemma StepKeepsInv(s: State, maxWorkers: nat, retireAfter: int, e: Event)
    requires Inv(s, maxWorkers, retireAfter) && Enabled(s, e)
    ensures Inv(Next(s, maxWorkers, retireAfter, e), maxWorkers, retireAfter)
  {
    match e
    case Submit(t) =>
      var s' := Next(s, maxWorkers, retireAfter, e);
      forall q | 0 <= q < |s'.workers| ensures WorkerOk(s', Quota(retireAfter), q) {
        assert WorkerOk(s, Quota(retireAfter), q);
      }
    case Dequeue(p) => DequeueKeepsInv(s, maxWorkers, retireAfter, p);
    case Finish(p) => FinishKeepsInv(s, maxWorkers, retireAfter, p);
    case Reap(p) =>
      DropIsSound(s, Quota(retireAfter), p);
      RefillKeeps(Drop(s, p), maxWorkers, Quota(retireAfter));
  }

  lemma {:induction false} RunKeepsInv(s: State, maxWorkers: nat, retireAfter: int, events: seq<Event>)
    requires Inv(s, maxWorkers, retireAfter) && IsRun(s, maxWorkers, retireAfter, events)
    ensures Inv(Run(s, maxWorkers, retireAfter, events), maxWorkers, retireAfter)
    decreases |events|
  {
    hide Inv, Refill;
    if events != [] {
      StepKeepsInv(s, maxWorkers, retireAfter, events[0]);
      RunKeepsInv(Next(s, maxWorkers, retireAfter, events[0]), maxWorkers, retireAfter, events[1..]);
    }
  }

  // ---------------------------------------------------- what every run keeps

  lemma {:induction false} ReapedCompleted(ws: seq<Worker>, quota: nat)
    requires forall p :: 0 <= p < |ws| && ws[p].status == Reaped ==> ws[p].completed == quota
    ensures CountStatus(ws, Reaped) * quota <= Completed(ws)
  {
    if ws != [] {
      ReapedCompleted(ws[..|ws| - 1], quota);
      assert forall n: nat :: (n + 1) * quota == n * quota + quota;
    }
  }

  /** The table always holds exactly max_workers processes, no task is lost or run twice, and
      the spawned workers number at most max_workers plus one per quota of completed tasks. */
  lemma RefillSystem(maxWorkers: nat, retireAfter: int, events: seq<Event>)
    requires IsRun(Initial(maxWorkers), maxWorkers, retireAfter, events)
    ensures var s := Run(Initial(maxWorkers), maxWorkers, retireAfter, events);
            && |s.processes| == maxWorkers
            && multiset(s.submitted) == multiset(s.queue) + Hands(s.workers) + multiset(s.results)
            && maxWorkers <= |s.workers| <= maxWorkers + |s.results| / (if retireAfter >= 1 then retireAfter else 1)
  {
    var s := Run(Initial(maxWorkers), maxWorkers, retireAfter, events);
    var quota := Quota(retireAfter);
    InitialInv(maxWorkers, retireAfter);
    RunKeepsInv(Initial(maxWorkers), maxWorkers, retireAfter, events);
    forall p | 0 <= p < |s.workers| && s.workers[p].status == Reaped ensures s.workers[p].completed == quota {
      assert WorkerOk(s, quota, p);
    }
    ReapedCompleted(s.workers, quota);
    QuotientBound(CountStatus(s.workers, Reaped), quota, |s.results|);
  }

  /** Tasks leave the queue in the order of their submission. */
  lemma {:induction false} QueueIsFifo(s: State, maxWorkers: nat, retireAfter: int, events: seq<Event>)
    requires IsRun(s, maxWorkers, retireAfter, events)
    requires |s.queue| <= |s.submitted| && s.queue == s.submitted[|s.submitted| - |s.queue|..]
    ensures var r := Run(s, maxWorkers, retireAfter, events);
            |r.queue| <= |r.submitted| && r.queue == r.submitted[|r.submitted| - |r.queue|..]
    decreases |events|
  {
    if events != [] {
      var s' := Next(s, maxWorkers, retireAfter, events[0]);
      if events[0].Reap? { RefillKeepsQueue(Drop(s, events[0].pid), maxWorkers); }
      hide Refill;
      assert |s'.queue| <= |s'.submitted| && s'.queue == s'.submitted[|s'.submitted| - |s'.queue|..];
      QueueIsFifo(s', maxWorkers, retireAfter, events[1..]);
    }
  }

  lemma {:induction false} RefillKeepsQueue(s: State, maxWorkers: nat)
    ensures Refill(s, maxWorkers).queue == s.queue && Refill(s, maxWorkers).submitted == s.submitted
    decreases maxWorkers - |s.processes|
  {
    if |s.processes| < maxWorkers && |s.workers| !in s.processes { RefillKeepsQueue(Spawn(s), maxWorkers); }
  }

  lemma MulMono(a: nat, b: nat, d: nat)
    requires a <= b
    ensures a * d <= b * d
  {
  }

  lemma QuotientBound(n: nat, d: nat, m: nat)
    requires d >= 1 && n * d <= m
    ensures n <= m / d
  {
    if m / d < n {
      MulMono(m / d + 1, n, d);
    }
  }

  // ----------------------------------------------------------------- progress

  /** Work left: three steps per queued task, two per task in hand, one per pid message. */
  function Left(s: State): nat {
    3 * |s.queue| + 2 * |Hands(s.workers)| + CountStatus(s.workers, Retired)
  }

  lemma HandsCount(ws: seq<Worker>, p: nat, w: Worker)
    requires p < |ws| && ws[p].status == Running
    ensures ws[p].hand.None? && w.hand.Some? ==> |Hands(ws[p := w])| == |Hands(ws)| + 1
    ensures ws[p].hand.Some? && w.hand.None? ==> |Hands(ws[p := w])| + 1 == |Hands(ws)|
    ensures CountStatus(ws[p := w], Retired) == CountStatus(ws, Retired) + (if w.status == Retired then 1 else 0)
  {
    hide Hands, Completed, CountStatus;
    UpdateSums(ws, p, w);
    UpdateHands(ws, p, w);
  }

  /** Without new submissions every step uses up work. */
  lemma StepsUseUpWork(s: State, maxWorkers: nat, retireAfter: int, e: Event)
    requires Inv(s, maxWorkers, retireAfter) && Enabled(s, e) && !e.Submit?
    ensures Left(Next(s, maxWorkers, retireAfter, e)) < Left(s)
  {
    hide Hands, Completed, CountStatus, Refill;
    var s' := Next(s, maxWorkers, retireAfter, e);
    match e
    case Dequeue(p) => HandsCount(s.workers, p, s'.workers[p]);
    case Finish(p) => HandsCount(s.workers, p, s'.workers[p]);
    case Reap(p) =>
      DropIsSound(s, Quota(retireAfter), p);
      RefillKeeps(Drop(s, p), maxWorkers, Quota(retireAfter));
  }

  /** Hence a run without submissions is no longer than the work it starts with. */
  lemma {:induction false} RunsAreBounded(s: State, maxWorkers: nat, retireAfter: int, events: seq<Event>)
    requires Inv(s, maxWorkers, retireAfter) && IsRun(s, maxWorkers, retireAfter, events)
    requires forall i :: 0 <= i < |events| ==> !events[i].Submit?
    ensures |events| <= Left(s)
    decreases |events|
  {
    hide Inv, Next, Enabled, Left;
    if events != [] {
      StepKeepsInv(s, maxWorkers, retireAfter, events[0]);
      StepsUseUpWork(s, maxWorkers, retireAfter, events[0]);
      RunsAreBounded(Next(s, maxWorkers, retireAfter, events[0]), maxWorkers, retireAfter, events[1..]);
    }
  }

  predicate Stopped(s: State) {
    forall p :: 0 <= p < |s.workers| ==> !Enabled(s, Dequeue(p)) && !Enabled(s, Finish(p)) && !Enabled(s, Reap(p))
  }

  lemma {:induction false} NoHands(ws: seq<Worker>)
    requires forall p :: 0 <= p < |ws| ==> ws[p].hand.None?
    ensures Hands(ws) == multiset{}
  {
    if ws != [] { NoHands(ws[..|ws| - 1]); }
  }

  /** Where no step is left, every submitted task has been executed exactly once. */
  lemma StoppedMeansDone(maxWorkers: nat, retireAfter: int, events: seq<Event>)
    requires maxWorkers >= 1 && IsRun(Initial(maxWorkers), maxWorkers, retireAfter, events)
    requires Stopped(Run(Initial(maxWorkers), maxWorkers, retireAfter, events))
    ensures var s := Run(Initial(maxWorkers), maxWorkers, retireAfter, events);
            s.queue == [] && multiset(s.results) == multiset(s.submitted)
  {
    var s := Run(Initial(maxWorkers), maxWorkers, retireAfter, events);
    InitialInv(maxWorkers, retireAfter);
    RunKeepsInv(Initial(maxWorkers), maxWorkers, retireAfter, events);
    forall p | 0 <= p < |s.workers| ensures s.workers[p].hand.None? {
      assert WorkerOk(s, Quota(retireAfter), p) && !Enabled(s, Finish(p));
    }
    NoHands(s.workers);
    assert s.processes != {};
    var p :| p in s.processes;
    assert WorkerOk(s, Quota(retireAfter), p) && !Enabled(s, Dequeue(p)) && !Enabled(s, Reap(p));
  }

  // ------------------------------------------- each worker counts down by itself

  /** What worker p has dequeued and finished in a run, as deliveries whose memory reading never
      shows a leak. */
  function History(s: State, maxWorkers: nat, retireAfter: int, events: seq<Event>, p: nat): seq<Delivery>
    requires IsRun(s, maxWorkers, retireAfter, events)
    decreases |events|
  {
    if events == [] then []
    else
      var rest := History(Next(s, maxWorkers, retireAfter, events[0]), maxWorkers, retireAfter, events[1..], p);
      if events[0] == Finish(p) then [Finished(s.workers[p].hand.value)] + rest else rest
  }

  function Finished(task: nat): Delivery { Item(task, false, Memory(false, true, true)) }

  /** How the countdown worker stands that the system shows in this status. */
  function OutcomeOf(status: Status): Outcome {
    if status == Running then Waiting else OnCount
  }

  /** Worker p, whether spawned yet or not, has behaved as the countdown worker does. */
  ghost predicate CountsDown(s: State, retireAfter: int, usePsutil: bool, p: nat, ds: seq<Delivery>,
                             messages: seq<Message>) {
    var w := if p < |s.workers| then s.workers[p] else FRESH_WORKER;
    w.completed == |Items(ds)| && Conduct(ds, Some(retireAfter), usePsutil, messages, OutcomeOf(w.status))
  }

  lemma {:induction false} RefillSpawnsFresh(s: State, maxWorkers: nat)
    ensures |Refill(s, maxWorkers).workers| >= |s.workers|
    ensures forall p :: 0 <= p < |s.workers| ==> Refill(s, maxWorkers).workers[p] == s.workers[p]
    ensures forall p :: |s.workers| <= p < |Refill(s, maxWorkers).workers| ==>
              Refill(s, maxWorkers).workers[p] == FRESH_WORKER
    decreases maxWorkers - |s.processes|
  {
    if |s.processes| < maxWorkers && |s.workers| !in s.processes {
      RefillSpawnsFresh(Spawn(s), maxWorkers);
    }
  }

  /** Any step but its own finishing leaves worker p's standing alone. */
  lemma OthersKeepCountdown(s: State, maxWorkers: nat, retireAfter: int, usePsutil: bool, e: Event, p: nat,
                            ds: seq<Delivery>, messages: seq<Message>)
    requires Enabled(s, e) && e != Finish(p) && CountsDown(s, retireAfter, usePsutil, p, ds, messages)
    ensures CountsDown(Next(s, maxWorkers, retireAfter, e), retireAfter, usePsutil, p, ds, messages)
  {
    hide Conduct, Refill, Items;
    if e.Reap? { RefillSpawnsFresh(Drop(s, e.pid), maxWorkers); }
  }

  /** Finishing a task is one more delivery to the countdown worker. */
  lemma FinishCountsDown(s: State, maxWorkers: nat, retireAfter: int, usePsutil: bool, p: nat,
                         ds: seq<Delivery>, messages: seq<Message>) returns (more: seq<Message>)
    requires Enabled(s, Finish(p)) && CountsDown(s, retireAfter, usePsutil, p, ds, messages)
    ensures CountsDown(Next(s, maxWorkers, retireAfter, Finish(p)), retireAfter, usePsutil, p,
                       ds + [Finished(s.workers[p].hand.value)], more)
  {
    hide Conduct, Items, CountReached;
    var d := Finished(s.workers[p].hand.value);
    ConductStep(ds, d, Some(retireAfter), usePsutil, messages);
    more := Say(messages, d, Decide(d, |Items(ds + [d])|, Some(retireAfter), usePsutil));
  }

  lemma {:induction false} RunCountsDown(s: State, maxWorkers: nat, retireAfter: int, usePsutil: bool,
                                         events: seq<Event>, p: nat,
                                         ds: seq<Delivery>, messages: seq<Message>) returns (all: seq<Message>)
    requires IsRun(s, maxWorkers, retireAfter, events) && CountsDown(s, retireAfter, usePsutil, p, ds, messages)
    ensures CountsDown(Run(s, maxWorkers, retireAfter, events), retireAfter, usePsutil, p,
                       ds + History(s, maxWorkers, retireAfter, events, p), all)
    decreases |events|
  {
    hide CountsDown;
    if events == [] {
      all := messages;
      assert ds + [] == ds;
    } else {
      var s' := Next(s, maxWorkers, retireAfter, events[0]);
      if events[0] == Finish(p) {
        var d := Finished(s.workers[p].hand.value);
        all := FinishCountsDown(s, maxWorkers, retireAfter, usePsutil, p, ds, messages);
        all := RunCountsDown(s', maxWorkers, retireAfter, usePsutil, events[1..], p, ds + [d], all);
        var rest := History(s', maxWorkers, retireAfter, events[1..], p);
        assert (ds + [d]) + rest == ds + ([d] + rest);
      } else {
        OthersKeepCountdown(s, maxWorkers, retireAfter, usePsutil, events[0], p, ds, messages);
        all := RunCountsDown(s', maxWorkers, retireAfter, usePsutil, events[1..], p, ds, messages);
      }
    }
  }

  /** Each worker of the system is a countdown worker: its history in any run is the conduct of
      the worker loop, still waiting exactly while it runs and ended by its count exactly once it
      is retired or reaped. */
  lemma WorkersCountDown(maxWorkers: nat, retireAfter: int, usePsutil: bool, events: seq<Event>, p: nat)
      returns (messages: seq<Message>)
    requires IsRun(Initial(maxWorkers), maxWorkers, retireAfter, events)
    requires p < |Run(Initial(maxWorkers), maxWorkers, retireAfter, events).workers|
    ensures var w := Run(Initial(maxWorkers), maxWorkers, retireAfter, events).workers[p];
            var ds := History(Initial(maxWorkers), maxWorkers, retireAfter, events, p);
            && Conduct(ds, Some(retireAfter), usePsutil, messages, if w.status == Running then Waiting else OnCount)
            && w.completed == |Items(ds)|
  {
    var s := Initial(maxWorkers);
    RefillSpawnsFresh(State([], [], {}, [], []), maxWorkers);
    ConductStart(Some(retireAfter), usePsutil);
    assert Items([]) == [];
    hide Conduct, Items, Refill, Initial;
    messages := RunCountsDown(s, maxWorkers, retireAfter, usePsutil, events, p, [], []);
    var ds := History(s, maxWorkers, retireAfter, events, p);
    assert [] + ds == ds;
  }
}
