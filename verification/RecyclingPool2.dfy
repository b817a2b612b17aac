/** recycling_pool2.py as a transition system: every block under the lock is one atomic
    step, and so is every move of the environment (a task finishes, a retirement thread
    begins or ends its shutdown, an __exit__ call proceeds). */
module RecyclingPool2 {
  import opened Options
  import opened Executors

  /** Who is responsible for shutting a pool down. */
  datatype Holder = Installed | ByThread(thread: nat) | ByExit(exit: nat)

  /** A ProcessPoolExecutor: futures[i] says whether its i-th accepted task is done. */
  datatype Pool = Pool(gen: nat, attempts: nat, futures: seq<bool>, stage: Stage, shutdowns: nat, holder: Holder)

  datatype Phase = Started | Draining | Finished

  /** A "pool-retire" thread; it has no pool when recycling ran outside the entered period. */
  datatype Retirer = Retirer(target: Option<nat>, phase: Phase)

  /** A call of __exit__ after its locked block: threads left to join, then its pool. */
  datatype ExitCall = ExitCall(pool: Option<nat>, gen: nat, joins: seq<nat>, phase: Phase)

  datatype State = State(
    installed: Option<nat>, gen: nat, tasks: nat, cleanup: seq<nat>,
    pools: seq<Pool>, threads: seq<Retirer>, exits: seq<ExitCall>, entered: bool)

  const INITIAL := State(None, 0, 0, [], [], [], [], false)

  datatype Event =
    | Enter
    | Submit(client: nat, accepted: bool)
    | Recycle(client: nat)
    | ExitSwap
    | ExitJoin(exit: nat)
    | ExitShutdown(exit: nat)
    | ExitReturn(exit: nat)
    | ThreadBegin(thread: nat)
    | ThreadFinish(thread: nat)
    | Complete(pool: nat, index: nat)

  // ------------------------------------------------------------ locked blocks

  /** _new_pool, installed. */
  function InstallNew(s: State): State {
    s.(gen := s.gen + 1, tasks := 0, installed := Some(|s.pools|),
       pools := s.pools + [Pool(s.gen + 1, 0, [], Open, 0, Installed)])
  }

  /** __enter__; entering twice raises and changes nothing. */
  function AfterEnter(s: State): State {
    if s.installed.Some? then s else InstallNew(s).(entered := true)
  }

  /** submit; outside the entered period it raises and changes nothing.  A task the executor
      refuses has been counted all the same. */
  function AfterSubmit(s: State, accepted: bool): State
    requires s.installed.Some? ==> s.installed.value < |s.pools|
  {
    if s.installed.None? then s
    else
      var i := s.installed.value;
      var p := s.pools[i];
      s.(tasks := s.tasks + 1,
         pools := s.pools[i := p.(attempts := p.attempts + 1,
                                  futures := if accepted then p.futures + [false] else p.futures)])
  }

  function Alive(threads: seq<Retirer>, t: nat): bool {
    t < |threads| && threads[t].phase != Finished
  }

  function Prune(threads: seq<Retirer>, cleanup: seq<nat>): (r: seq<nat>)
    ensures forall t :: t in r <==> t in cleanup && Alive(threads, t)
  {
    if cleanup == [] then []
    else
      assert cleanup == [cleanup[0]] + cleanup[1..];
      (if Alive(threads, cleanup[0]) then [cleanup[0]] else []) + Prune(threads, cleanup[1..])
  }

  /** recycle_if_needed: below the threshold nothing; otherwise a new pool is installed and
      a thread takes over whatever was installed before, even nothing. */
  function AfterRecycle(s: State, recycleAfter: int): State
    requires s.installed.Some? ==> s.installed.value < |s.pools|
  {
    if s.tasks < recycleAfter then s
    else
      var t := |s.threads|;
      var released := if s.installed.None? then s.pools
                      else s.pools[s.installed.value := s.pools[s.installed.value].(holder := ByThread(t))];
      InstallNew(s.(pools := released))
        .(threads := s.threads + [Retirer(s.installed, Started)],
          cleanup := Prune(s.threads, s.cleanup) + [t])
  }

  /** The locked block of __exit__: it takes the pool and the threads; the task count stays. */
  function AfterExitSwap(s: State): State
    requires s.installed.Some? ==> s.installed.value < |s.pools|
  {
    var e := |s.exits|;
    var taken := if s.installed.None? then s.pools
                 else s.pools[s.installed.value := s.pools[s.installed.value].(holder := ByExit(e))];
    s.(installed := None, cleanup := [], pools := taken, entered := false,
       exits := s.exits + [ExitCall(s.installed, s.gen, s.cleanup, Started)])
  }

  // ----------------------------------------------------- steps of all parties

  predicate Enabled(s: State, e: Event) {
    match e
    case Enter => true
    case Submit(_, _) => s.installed.Some? ==> s.installed.value < |s.pools|
    case Recycle(_) => s.installed.Some? ==> s.installed.value < |s.pools|
    case ExitSwap => s.installed.Some? ==> s.installed.value < |s.pools|
    case ExitJoin(x) => x < |s.exits| && s.exits[x].joins != [] && !Alive(s.threads, s.exits[x].joins[0])
    case ExitShutdown(x) =>
      && x < |s.exits| && s.exits[x].joins == [] && s.exits[x].phase == Started
      && s.exits[x].pool.Some? && s.exits[x].pool.value < |s.pools|
    case ExitReturn(x) =>
      && x < |s.exits| && s.exits[x].joins == []
      && (if s.exits[x].pool.None? then s.exits[x].phase == Started
          else
            && s.exits[x].phase == Draining && s.exits[x].pool.value < |s.pools|
            && AllDone(s.pools[s.exits[x].pool.value].futures))
    case ThreadBegin(t) =>
      && t < |s.threads| && s.threads[t].phase == Started
      && (s.threads[t].target.Some? ==> s.threads[t].target.value < |s.pools|)
    case ThreadFinish(t) =>
      && t < |s.threads| && s.threads[t].phase == Draining
      && s.threads[t].target.Some? && s.threads[t].target.value < |s.pools|
      && AllDone(s.pools[s.threads[t].target.value].futures)
    case Complete(p, i) => p < |s.pools| && i < |s.pools[p].futures|
  }

  /** shutdown(wait=True) begins: from here on the executor takes no task. */
  function BeginShutdown(pools: seq<Pool>, i: nat): seq<Pool>
    requires i < |pools|
  {
    pools[i := pools[i].(stage := Closing, shutdowns := pools[i].shutdowns + 1)]
  }

  function EndShutdown(pools: seq<Pool>, i: nat): seq<Pool>
    requires i < |pools|
  {
    pools[i := pools[i].(stage := Shut)]
  }

  function Next(s: State, recycleAfter: int, e: Event): State
    requires Enabled(s, e)
  {
    match e
    case Enter => AfterEnter(s)
    case Submit(_, accepted) => AfterSubmit(s, accepted)
    case Recycle(_) => AfterRecycle(s, recycleAfter)
    case ExitSwap => AfterExitSwap(s)
    case ExitJoin(x) =>
      s.(exits := s.exits[x := s.exits[x].(joins := s.exits[x].joins[1..])])
    case ExitShutdown(x) =>
      s.(exits := s.exits[x := s.exits[x].(phase := Draining)],
         pools := BeginShutdown(s.pools, s.exits[x].pool.value))
    case ExitReturn(x) =>
      s.(exits := s.exits[x := s.exits[x].(phase := Finished)],
         pools := if s.exits[x].pool.None? then s.pools else EndShutdown(s.pools, s.exits[x].pool.value))
    case ThreadBegin(t) =>
      if s.threads[t].target.None? then s.(threads := s.threads[t := s.threads[t].(phase := Finished)])
      else s.(threads := s.threads[t := s.threads[t].(phase := Draining)],
              pools := BeginShutdown(s.pools, s.threads[t].target.value))
    case ThreadFinish(t) =>
      s.(threads := s.threads[t := s.threads[t].(phase := Finished)],
         pools := EndShutdown(s.pools, s.threads[t].target.value))
    case Complete(p, i) =>
      s.(pools := s.pools[p := s.pools[p].(futures := s.pools[p].futures[i := true])])
  }

  predicate IsRun(s: State, recycleAfter: int, events: seq<Event>)
    decreases |events|
  {
    events == [] || (Enabled(s, events[0]) && IsRun(Next(s, recycleAfter, events[0]), recycleAfter, events[1..]))
  }

  function Run(s: State, recycleAfter: int, events: seq<Event>): State
    requires IsRun(s, recycleAfter, events)
    decreases |events|
  {
    if events == [] then s else Run(Next(s, recycleAfter, events[0]), recycleAfter, events[1..])
  }

  // -------------------------------------------------------------- invariant

  /** How far a pool's shutdown is, seen from its one holder. */
  predicate PoolOk(s: State, i: nat)
    requires i < |s.pools|
  {
    var p := s.pools[i];
    && p.gen == i + 1
    && p.shutdowns == (if p.stage == Open then 0 else 1)
    && (p.stage == Shut ==> AllDone(p.futures))
    && match p.holder
       case Installed => s.installed == Some(i) && p.stage == Open && p.attempts == s.tasks
       case ByThread(t) => t < |s.threads| && s.threads[t].target == Some(i) && p.stage == StageOf(s.threads[t].phase)
       case ByExit(e) => e < |s.exits| && s.exits[e].pool == Some(i) && p.stage == StageOf(s.exits[e].phase)
  }

  function StageOf(phase: Phase): Stage {
    match phase case Started => Open case Draining => Closing case Finished => Shut
  }

  predicate ThreadOk(s: State, t: nat)
    requires t < |s.threads|
  {
    match s.threads[t].target
    case None => s.threads[t].phase != Draining
    case Some(i) => i < |s.pools| && s.pools[i].holder == ByThread(t)
  }

  predicate ExitOk(s: State, e: nat)
    requires e < |s.exits|
  {
    var x := s.exits[e];
    && x.gen <= |s.pools|
    && (x.phase != Started ==> x.joins == [])
    && (forall t :: t in x.joins ==> t < |s.threads|)
    && match x.pool
       case None => x.phase != Draining
       case Some(i) => i < |s.pools| && s.pools[i].holder == ByExit(e)
  }

  /** Somebody still knows thread t: the pool object, or an __exit__ call that will join it. */
  ghost predicate Tracked(s: State, t: nat) {
    t in s.cleanup || exists e :: 0 <= e < |s.exits| && t in s.exits[e].joins
  }

  /** No locked block of __exit__ left anything of its time behind in the pool object. */
  predicate Fresh(s: State, e: nat)
    requires e < |s.exits|
  {
    && (s.installed.Some? ==> s.exits[e].gen <= s.installed.value)
    && (forall t :: t in s.cleanup && t < |s.threads| && s.threads[t].target.Some? ==>
        s.exits[e].gen <= s.threads[t].target.value)
  }

  ghost predicate Inv(s: State) {
    && s.gen == |s.pools|
    && (s.installed.Some? ==> s.installed.value + 1 == |s.pools| && s.pools[s.installed.value].holder == Installed)
    && (forall t :: t in s.cleanup ==> t < |s.threads|)
    && (forall i :: 0 <= i < |s.pools| ==> PoolOk(s, i))
    && (forall t :: 0 <= t < |s.threads| ==> ThreadOk(s, t))
    && (forall e :: 0 <= e < |s.exits| ==> ExitOk(s, e) && Fresh(s, e))
    && (forall t :: 0 <= t < |s.threads| && Alive(s.threads, t) ==> Tracked(s, t))
  }

  lemma InitialInv()
    ensures Inv(INITIAL)
  {
  }

  lemma InstallKeepsInv(s: State, s': State)
    requires Inv(s) && s' == AfterEnter(s)
    ensures Inv(s')
  {
    if s.installed.None? {
      forall i | 0 <= i < |s'.pools| ensures PoolOk(s', i) { assert i < |s.pools| ==> PoolOk(s, i); }
      forall t | 0 <= t < |s'.threads| ensures ThreadOk(s', t) { assert ThreadOk(s, t); }
      forall e | 0 <= e < |s'.exits| ensures ExitOk(s', e) && Fresh(s', e) { assert ExitOk(s, e) && Fresh(s, e); }
      forall t | 0 <= t < |s'.threads| && Alive(s'.threads, t) ensures Tracked(s', t) { assert Tracked(s, t); }
    }
  }

  lemma SubmitKeepsInv(s: State, s': State, accepted: bool)
    requires Inv(s) && s' == AfterSubmit(s, accepted)
    ensures Inv(s')
  {
    if s.installed.Some? {
      forall i | 0 <= i < |s'.pools| ensures PoolOk(s', i) { assert PoolOk(s, i); }
      forall t | 0 <= t < |s'.threads| ensures ThreadOk(s', t) { assert ThreadOk(s, t); }
      forall e | 0 <= e < |s'.exits| ensures ExitOk(s', e) && Fresh(s', e) { assert ExitOk(s, e) && Fresh(s, e); }
      forall t | 0 <= t < |s'.threads| && Alive(s'.threads, t) ensures Tracked(s', t) { assert Tracked(s, t); }
    }
  }

  lemma RecycleKeepsInv(s: State, s': State, recycleAfter: int)
    requires Inv(s) && s' == AfterRecycle(s, recycleAfter)
    ensures Inv(s')
  {
    if s.tasks >= recycleAfter {
      var n := |s.threads|;
      assert forall t :: t in s'.cleanup <==> t == n || t in Prune(s.threads, s.cleanup);
      forall i | 0 <= i < |s'.pools| ensures PoolOk(s', i) { assert i < |s.pools| ==> PoolOk(s, i); }
      forall t | 0 <= t < |s'.threads| ensures ThreadOk(s', t) { assert t < n ==> ThreadOk(s, t); }
      forall e | 0 <= e < |s'.exits| ensures ExitOk(s', e) && Fresh(s', e) { assert ExitOk(s, e) && Fresh(s, e); }
      forall t | 0 <= t < |s'.threads| && Alive(s'.threads, t) ensures Tracked(s', t) {
        if t < n { assert Alive(s.threads, t) && Tracked(s, t); }
      }
    }
  }

  lemma ExitSwapKeepsInv(s: State, s': State)
    requires Inv(s) && s' == AfterExitSwap(s)
    ensures Inv(s')
  {
    var x := |s.exits|;
    forall i | 0 <= i < |s'.pools| ensures PoolOk(s', i) { assert PoolOk(s, i); }
    forall t | 0 <= t < |s'.threads| ensures ThreadOk(s', t) { assert ThreadOk(s, t); }
    forall e | 0 <= e < |s'.exits| ensures ExitOk(s', e) && Fresh(s', e) {
      assert e < x ==> ExitOk(s, e) && Fresh(s, e);
    }
    forall t | 0 <= t < |s'.threads| && Alive(s'.threads, t) ensures Tracked(s', t) {
      assert Tracked(s, t);
      if t in s.cleanup { assert t in s'.exits[x].joins; }
      if e :| 0 <= e < x && t in s.exits[e].joins { assert t in s'.exits[e].joins; }
    }
  }

  /** A joined thread is a finished one, so forgetting it loses no live thread. */
  lemma ExitJoinKeepsInv(s: State, s': State, e: Event)
    requires Inv(s) && e.ExitJoin? && Enabled(s, e) && s' == Next(s, 0, e)
    ensures Inv(s')
  {
    var x := e.exit;
    assert ExitOk(s, x);
    forall t ensures t in s'.exits[x].joins ==> t in s.exits[x].joins {}
    forall i | 0 <= i < |s'.pools| ensures PoolOk(s', i) { assert PoolOk(s, i); }
    forall t | 0 <= t < |s'.threads| ensures ThreadOk(s', t) { assert ThreadOk(s, t); }
    forall y | 0 <= y < |s'.exits| ensures ExitOk(s', y) && Fresh(s', y) { assert ExitOk(s, y) && Fresh(s, y); }
    forall t | 0 <= t < |s'.threads| && Alive(s'.threads, t) ensures Tracked(s', t) {
      assert Tracked(s, t);
      if y :| 0 <= y < |s.exits| && t in s.exits[y].joins { assert t in s'.exits[y].joins; }
    }
  }

  /** Only stages, futures and phases moved: who holds and who knows what is as before. */
  ghost predicate SameBooks(s: State, s': State) {
    && s'.installed == s.installed && s'.gen == s.gen && s'.cleanup == s.cleanup
    && |s'.pools| == |s.pools| && (forall i :: 0 <= i < |s.pools| ==> s'.pools[i].holder == s.pools[i].holder)
    && |s'.threads| == |s.threads|
    && (forall t :: 0 <= t < |s.threads| ==>
          s'.threads[t].target == s.threads[t].target && (Alive(s'.threads, t) ==> Alive(s.threads, t)))
    && |s'.exits| == |s.exits|
    && (forall e :: 0 <= e < |s.exits| ==> s'.exits[e].gen == s.exits[e].gen && s'.exits[e].joins == s.exits[e].joins)
  }

  /** The frame of every such step: freshness and tracking carry over. */
  lemma SameBooksKeepInv(s: State, s': State)
    requires Inv(s) && SameBooks(s, s')
    requires forall i :: 0 <= i < |s'.pools| ==> PoolOk(s', i)
    requires forall t :: 0 <= t < |s'.threads| ==> ThreadOk(s', t)
    requires forall e :: 0 <= e < |s'.exits| ==> ExitOk(s', e)
    ensures Inv(s')
  {
    hide PoolOk, ThreadOk, ExitOk;
    forall e | 0 <= e < |s'.exits| ensures Fresh(s', e) { assert Fresh(s, e); }
    forall t | 0 <= t < |s'.threads| && Alive(s'.threads, t) ensures Tracked(s', t) {
      assert Tracked(s, t);
      if e :| 0 <= e < |s.exits| && t in s.exits[e].joins { assert t in s'.exits[e].joins; }
    }
  }

  /** An __exit__ call past its joins begins or ends the shutdown of its pool. */
  lemma ExitMoveKeepsInv(s: State, s': State, e: Event)
    requires Inv(s) && (e.ExitShutdown? || e.ExitReturn?) && Enabled(s, e) && s' == Next(s, 0, e)
    ensures Inv(s')
  {
    hide Fresh, Tracked;
    assert ExitOk(s, e.exit);
    forall i | 0 <= i < |s'.pools| ensures PoolOk(s', i) { assert PoolOk(s, i); }
    forall t | 0 <= t < |s'.threads| ensures ThreadOk(s', t) { assert ThreadOk(s, t); }
    forall y | 0 <= y < |s'.exits| ensures ExitOk(s', y) { assert ExitOk(s, y); }
    SameBooksKeepInv(s, s');
  }

  /** A retirement thread begins or ends the shutdown of its pool. */
  lemma ThreadMoveKeepsInv(s: State, s': State, e: Event)
    requires Inv(s) && (e.ThreadBegin? || e.ThreadFinish?) && Enabled(s, e) && s' == Next(s, 0, e)
    ensures Inv(s')
  {
    ThreadMovePools(s, s', e);
    hide PoolOk, Fresh, Tracked;
    assert ThreadOk(s, e.thread);
    forall t | 0 <= t < |s'.threads| ensures ThreadOk(s', t) { assert ThreadOk(s, t); }
    forall y | 0 <= y < |s'.exits| ensures ExitOk(s', y) { assert ExitOk(s, y); }
    SameBooksKeepInv(s, s');
  }

  lemma ThreadMovePools(s: State, s': State, e: Event)
    requires Inv(s) && (e.ThreadBegin? || e.ThreadFinish?) && Enabled(s, e) && s' == Next(s, 0, e)
    ensures forall i :: 0 <= i < |s'.pools| ==> PoolOk(s', i)
  {
    hide ExitOk, Fresh, Tracked;
    assert ThreadOk(s, e.thread);
    forall i | 0 <= i < |s'.pools| ensures PoolOk(s', i) { assert PoolOk(s, i); }
  }

  lemma CompleteKeepsInv(s: State, s': State, e: Event)
    requires Inv(s) && e.Complete? && Enabled(s, e) && s' == Next(s, 0, e)
    ensures Inv(s')
  {
    forall i | 0 <= i < |s'.pools| ensures PoolOk(s', i) { assert PoolOk(s, i); }
    forall t | 0 <= t < |s'.threads| ensures ThreadOk(s', t) { assert ThreadOk(s, t); }
    forall y | 0 <= y < |s'.exits| ensures ExitOk(s', y) { assert ExitOk(s, y); }
    SameBooksKeepInv(s, s');
  }

  lemma StepKeepsInv(s: State, recycleAfter: int, e: Event)
    requires Inv(s) && Enabled(s, e)
    ensures Inv(Next(s, recycleAfter, e))
  {
    hide Inv;
    var s' := Next(s, recycleAfter, e);
    match e
    case Enter => InstallKeepsInv(s, s');
    case Submit(_, accepted) => SubmitKeepsInv(s, s', accepted);
    case Recycle(_) => RecycleKeepsInv(s, s', recycleAfter);
    case ExitSwap => ExitSwapKeepsInv(s, s');
    case ExitJoin(_) => ExitJoinKeepsInv(s, s', e);
    case ExitShutdown(_) => ExitMoveKeepsInv(s, s', e);
    case ExitReturn(_) => ExitMoveKeepsInv(s, s', e);
    case ThreadBegin(_) => ThreadMoveKeepsInv(s, s', e);
    case ThreadFinish(_) => ThreadMoveKeepsInv(s, s', e);
    case Complete(_, _) => CompleteKeepsInv(s, s', e);
  }

  lemma {:induction false} RunKeepsInv(s: State, recycleAfter: int, events: seq<Event>)
    requires Inv(s) && IsRun(s, recycleAfter, events)
    ensures Inv(Run(s, recycleAfter, events))
    decreases |events|
  {
    if events != [] {
      StepKeepsInv(s, recycleAfter, events[0]);
      RunKeepsInv(Next(s, recycleAfter, events[0]), recycleAfter, events[1..]);
    }
  }

  // ---------------------------------------------------- what every run keeps

  /** The pools not yet shut are exactly the installed one, those of live retirement threads
      and those of __exit__ calls in progress; and every live thread is still known. */
  lemma UnshutPools(recycleAfter: int, events: seq<Event>, i: nat)
    requires IsRun(INITIAL, recycleAfter, events) && i < |Run(INITIAL, recycleAfter, events).pools|
    ensures var s := Run(INITIAL, recycleAfter, events);
            s.pools[i].stage != Shut <==>
            || s.installed == Some(i)
            || (exists t :: 0 <= t < |s.threads| && s.threads[t].target == Some(i) && Alive(s.threads, t))
            || (exists e :: 0 <= e < |s.exits| && s.exits[e].pool == Some(i) && s.exits[e].phase != Finished)
    ensures var s := Run(INITIAL, recycleAfter, events);
            forall t :: 0 <= t < |s.threads| && Alive(s.threads, t) ==> Tracked(s, t)
  {
    var s := Run(INITIAL, recycleAfter, events);
    InitialInv();
    RunKeepsInv(INITIAL, recycleAfter, events);
    assert PoolOk(s, i);
    if t :| 0 <= t < |s.threads| && s.threads[t].target == Some(i) && Alive(s.threads, t) { assert ThreadOk(s, t); }
    if e :| 0 <= e < |s.exits| && s.exits[e].pool == Some(i) && s.exits[e].phase != Finished { assert ExitOk(s, e); }
  }

  /** Generations are never reused, the installed pool carries the current one, and the task
      count is the number of submissions made to it. */
  lemma Generations(recycleAfter: int, events: seq<Event>)
    requires IsRun(INITIAL, recycleAfter, events)
    ensures var s := Run(INITIAL, recycleAfter, events);
            && (forall i, j :: 0 <= i < j < |s.pools| ==> s.pools[i].gen < s.pools[j].gen)
            && (s.installed.Some? ==>
                  && s.installed.value < |s.pools|
                  && s.pools[s.installed.value].gen == s.gen
                  && s.pools[s.installed.value].attempts == s.tasks
                  && s.pools[s.installed.value].stage == Open)
  {
    var s := Run(INITIAL, recycleAfter, events);
    InitialInv();
    RunKeepsInv(INITIAL, recycleAfter, events);
    assert s.installed.Some? ==> PoolOk(s, s.installed.value);
    forall i, j | 0 <= i < j < |s.pools| ensures s.pools[i].gen < s.pools[j].gen {
      assert PoolOk(s, i) && PoolOk(s, j);
    }
  }

  /** A pool whose shutdown has begun takes no further task and is never shut down again, and
      no step makes a shutdown begin a second time. */
  lemma ShutdownIsFinal(s: State, recycleAfter: int, e: Event, i: nat)
    requires Inv(s) && Enabled(s, e) && i < |s.pools|
    ensures var p, q := s.pools[i], Next(s, recycleAfter, e).pools[i];
            && q.gen == p.gen && p.shutdowns <= q.shutdowns <= 1
            && (p.stage != Open ==> q.stage != Open && q.attempts == p.attempts && |q.futures| == |p.futures|)
            && (p.stage == Shut ==> q.stage == Shut && AllDone(q.futures))
            && (q.shutdowns == 1 <==> q.stage != Open)
  {
    var s' := Next(s, recycleAfter, e);
    StepKeepsInv(s, recycleAfter, e);
    assert PoolOk(s, i) && PoolOk(s', i);
    if e.ExitShutdown? || e.ExitReturn? { assert ExitOk(s, e.exit); }
    if e.ThreadBegin? || e.ThreadFinish? { assert ThreadOk(s, e.thread); }
  }

  /** Pruning forgets only threads whose pool is shut with all its tasks done. */
  lemma PruningIsSafe(s: State, recycleAfter: int, t: nat)
    requires Inv(s) && t in s.cleanup && t !in AfterRecycle(s, recycleAfter).cleanup
    ensures t < |s.threads| && s.threads[t].phase == Finished
    ensures s.threads[t].target.Some? ==>
              var i := s.threads[t].target.value;
              i < |s.pools| && s.pools[i].stage == Shut && s.pools[i].shutdowns == 1 && AllDone(s.pools[i].futures)
  {
    assert ThreadOk(s, t);
    if s.threads[t].target.Some? {
      assert PoolOk(s, s.threads[t].target.value);
    }
  }

  /** And it forgets every thread that has finished: what it keeps is the live ones and the new
      one. */
  lemma PruningIsExact(s: State, recycleAfter: int, t: nat)
    requires Inv(s) && s.tasks >= recycleAfter
    ensures var s' := AfterRecycle(s, recycleAfter);
            t in s'.cleanup <==> (t in s.cleanup && s.threads[t].phase != Finished) || t == |s.threads|
  {
  }

  /** Call x took pool i itself, or the thread that retires it. */
  predicate Answers(s: State, x: nat, i: nat)
    requires x < |s.exits|
  {
    s.exits[x].pool == Some(i) || exists t :: t in s.exits[x].joins && t < |s.threads| && s.threads[t].target == Some(i)
  }

  // --------------------------------------------- what a pool's record means

  /** The submissions made while pool i was installed, all of them or only those its executor
      accepted. */
  function Submissions(s: State, recycleAfter: int, events: seq<Event>, i: nat, all: bool): nat
    requires IsRun(s, recycleAfter, events)
    decreases |events|
  {
    if events == [] then 0
    else
      var rest := Submissions(Next(s, recycleAfter, events[0]), recycleAfter, events[1..], i, all);
      if Reaches(s, events[0], i, all) then 1 + rest else rest
  }

  predicate Reaches(s: State, e: Event, i: nat, all: bool) {
    e.Submit? && s.installed == Some(i) && (all || e.accepted)
  }

  function AttemptsOf(s: State, i: nat): nat {
    if i < |s.pools| then s.pools[i].attempts else 0
  }

  function FuturesOf(s: State, i: nat): seq<bool> {
    if i < |s.pools| then s.pools[i].futures else []
  }

  predicate DoneAt(s: State, i: nat, k: nat) {
    k < |FuturesOf(s, i)| && FuturesOf(s, i)[k]
  }

  lemma StepRecords(s: State, recycleAfter: int, e: Event, i: nat, k: nat)
    requires Enabled(s, e)
    ensures var s' := Next(s, recycleAfter, e);
            && AttemptsOf(s', i) == AttemptsOf(s, i) + (if Reaches(s, e, i, true) then 1 else 0)
            && |FuturesOf(s', i)| == |FuturesOf(s, i)| + (if Reaches(s, e, i, false) then 1 else 0)
            && (DoneAt(s', i, k) <==> DoneAt(s, i, k) || e == Complete(i, k))
  {
  }

  lemma {:induction false} RunRecords(s: State, recycleAfter: int, events: seq<Event>, i: nat, k: nat)
    requires IsRun(s, recycleAfter, events)
    ensures var s' := Run(s, recycleAfter, events);
            && AttemptsOf(s', i) == AttemptsOf(s, i) + Submissions(s, recycleAfter, events, i, true)
            && |FuturesOf(s', i)| == |FuturesOf(s, i)| + Submissions(s, recycleAfter, events, i, false)
            && (DoneAt(s', i, k) <==> DoneAt(s, i, k) || Complete(i, k) in events)
    decreases |events|
  {
    hide AttemptsOf, FuturesOf, DoneAt, Next, Enabled, Reaches;
    if events != [] {
      var s' := Next(s, recycleAfter, events[0]);
      StepRecords(s, recycleAfter, events[0], i, k);
      RunRecords(s', recycleAfter, events[1..], i, k);
      assert events == [events[0]] + events[1..];
    }
  }

  /** In every run a pool's record is exact: every submission made while it was installed is
      counted, refused or not, every accepted one has its future, and a future is done exactly
      when that task has completed. */
  lemma PoolsRecordTheirTasks(recycleAfter: int, events: seq<Event>, i: nat)
    requires IsRun(INITIAL, recycleAfter, events) && i < |Run(INITIAL, recycleAfter, events).pools|
    ensures var p := Run(INITIAL, recycleAfter, events).pools[i];
            && p.attempts == Submissions(INITIAL, recycleAfter, events, i, true)
            && |p.futures| == Submissions(INITIAL, recycleAfter, events, i, false)
            && forall k :: 0 <= k < |p.futures| ==> (p.futures[k] <==> Complete(i, k) in events)
  {
    var s := Run(INITIAL, recycleAfter, events);
    RunRecords(INITIAL, recycleAfter, events, i, 0);
    forall k | 0 <= k < |s.pools[i].futures| ensures s.pools[i].futures[k] <==> Complete(i, k) in events {
      RunRecords(INITIAL, recycleAfter, events, i, k);
      assert DoneAt(s, i, k) <==> s.pools[i].futures[k];
    }
  }

  // ------------------------------------------------- what one __exit__ waits for

  /** Each __exit__ call answers for pools of its own period alone: older than its locked block,
      and younger than every earlier one. */
  ghost predicate Periods(s: State) {
    && (forall e :: 0 <= e < |s.exits| ==> s.exits[e].gen <= s.gen)
    && (forall d, e :: 0 <= d < e < |s.exits| ==> s.exits[d].gen <= s.exits[e].gen)
    && (forall e, i: nat :: 0 <= e < |s.exits| && Answers(s, e, i) ==> i < s.exits[e].gen)
    && (forall d, e, i: nat :: 0 <= d < e < |s.exits| && Answers(s, e, i) ==> s.exits[d].gen <= i)
  }

  /** No step gives an existing call anything more to answer for. */
  lemma AnswersOnlyShrink(s: State, recycleAfter: int, ev: Event, e: nat)
    requires Inv(s) && Enabled(s, ev) && e < |s.exits|
    ensures var s' := Next(s, recycleAfter, ev);
            && e < |s'.exits| && s'.exits[e].gen == s.exits[e].gen
            && forall i: nat :: Answers(s', e, i) ==> Answers(s, e, i)
  {
    assert ExitOk(s, e);
    var s' := Next(s, recycleAfter, ev);
    assert forall t :: t in s'.exits[e].joins ==> t in s.exits[e].joins;
    assert forall t :: 0 <= t < |s.threads| ==> s'.threads[t].target == s.threads[t].target;
  }

  /** A new call takes the installed pool and the tracked threads, all of its own period. */
  lemma NewCallAnswers(s: State, i: nat)
    requires Inv(s) && Answers(AfterExitSwap(s), |s.exits|, i)
    ensures i < s.gen && forall d :: 0 <= d < |s.exits| ==> s.exits[d].gen <= i
  {
    forall d | 0 <= d < |s.exits| ensures s.exits[d].gen <= i { assert Fresh(s, d); }
    if s.installed != Some(i) {
      var t :| t in s.cleanup && t < |s.threads| && s.threads[t].target == Some(i);
      assert ThreadOk(s, t);
    }
  }

  lemma StepKeepsPeriods(s: State, recycleAfter: int, ev: Event)
    requires Inv(s) && Periods(s) && Enabled(s, ev)
    ensures Periods(Next(s, recycleAfter, ev))
  {
    var s' := Next(s, recycleAfter, ev);
    var n := |s.exits|;
    assert s'.gen >= s.gen && (|s'.exits| > n ==> ev.ExitSwap? && |s'.exits| == n + 1 && s'.exits[n].gen == s.gen);
    forall e | 0 <= e < n
      ensures s'.exits[e].gen == s.exits[e].gen && forall i: nat :: Answers(s', e, i) ==> Answers(s, e, i)
    {
      AnswersOnlyShrink(s, recycleAfter, ev, e);
    }
    if ev.ExitSwap? {
      forall i: nat | Answers(s', n, i) ensures i < s.gen && forall d :: 0 <= d < n ==> s.exits[d].gen <= i {
        NewCallAnswers(s, i);
      }
    }
    hide Next, Enabled, Answers, Inv;
  }

  lemma {:induction false} RunKeepsPeriods(s: State, recycleAfter: int, events: seq<Event>)
    requires Inv(s) && Periods(s) && IsRun(s, recycleAfter, events)
    ensures Periods(Run(s, recycleAfter, events))
    decreases |events|
  {
    hide Inv, Periods, Enabled, Next;
    if events != [] {
      StepKeepsInv(s, recycleAfter, events[0]);
      StepKeepsPeriods(s, recycleAfter, events[0]);
      RunKeepsPeriods(Next(s, recycleAfter, events[0]), recycleAfter, events[1..]);
    }
  }

  /** Shut down, once, with every task done. */
  predicate Closed(s: State, i: nat) {
    i < |s.pools| && s.pools[i].stage == Shut && s.pools[i].shutdowns == 1 && AllDone(s.pools[i].futures)
  }

  /** Call d has not returned and pool i is not shut while it waits. */
  predicate StillHolds(s: State, d: nat, i: nat)
    requires d < |s.exits|
  {
    && s.exits[d].phase != Finished
    && (s.exits[d].pool == Some(i) ||
        exists t :: t in s.exits[d].joins && Alive(s.threads, t) && s.threads[t].target == Some(i))
  }

  /** When __exit__ has returned, a pool older than its locked block is shut once with every task
      done, if and only if no earlier __exit__ call is still holding it. */
  lemma ExitWaitsForAll(recycleAfter: int, events: seq<Event>, e: nat, i: nat)
    requires IsRun(INITIAL, recycleAfter, events) && e < |Run(INITIAL, recycleAfter, events).exits|
    requires var s := Run(INITIAL, recycleAfter, events); s.exits[e].phase == Finished && i < s.exits[e].gen
    ensures var s := Run(INITIAL, recycleAfter, events);
            Closed(s, i) <==> forall d :: 0 <= d < e ==> !StillHolds(s, d, i)
  {
    var s := Run(INITIAL, recycleAfter, events);
    InitialInv();
    RunKeepsInv(INITIAL, recycleAfter, events);
    RunKeepsPeriods(INITIAL, recycleAfter, events);
    hide IsRun, Run;
    assert ExitOk(s, e) && PoolOk(s, i);
    if !Closed(s, i) {
      var d := HolderOf(s, e, i);
    } else if d :| 0 <= d < e && StillHolds(s, d, i) {
      assert ExitOk(s, d);
      if s.exits[d].pool != Some(i) {
        var t :| t in s.exits[d].joins && Alive(s.threads, t) && s.threads[t].target == Some(i);
        assert ThreadOk(s, t);
      }
    }
  }

  /** The earlier call that holds a pool still open when call e has returned. */
  lemma HolderOf(s: State, e: nat, i: nat) returns (d: nat)
    requires Inv(s) && Periods(s) && e < |s.exits| && s.exits[e].phase == Finished && i < s.exits[e].gen
    requires !Closed(s, i)
    ensures d < e && StillHolds(s, d, i) && i < s.exits[d].gen
  {
    assert ExitOk(s, e) && Fresh(s, e) && PoolOk(s, i);
    match s.pools[i].holder {
      case ByExit(x) => d := x;
      case ByThread(t) =>
        assert Alive(s.threads, t) && Tracked(s, t);
        d :| 0 <= d < |s.exits| && t in s.exits[d].joins;
        assert ExitOk(s, d);
    }
    assert Answers(s, d, i);
  }

  /** A guard the owner of a with block can see: a returned __exit__ has closed every pool of its
      period, the pools created after the locked blocks of the earlier calls still under way. */
  lemma ExitClosesItsPeriod(recycleAfter: int, events: seq<Event>, e: nat, i: nat)
    requires IsRun(INITIAL, recycleAfter, events) && e < |Run(INITIAL, recycleAfter, events).exits|
    requires var s := Run(INITIAL, recycleAfter, events); s.exits[e].phase == Finished && i < s.exits[e].gen
    requires var s := Run(INITIAL, recycleAfter, events);
             forall d :: 0 <= d < e && s.exits[d].phase != Finished ==> s.exits[d].gen <= i
    ensures Closed(Run(INITIAL, recycleAfter, events), i)
  {
    var s := Run(INITIAL, recycleAfter, events);
    InitialInv();
    RunKeepsInv(INITIAL, recycleAfter, events);
    RunKeepsPeriods(INITIAL, recycleAfter, events);
    hide IsRun, Run;
    if !Closed(s, i) {
      var d := HolderOf(s, e, i);
    }
  }

  /** Calls that return in order leave nothing: with every earlier __exit__ returned too, all
      pools created before the locked block are closed. */
  lemma ExitsInOrderCloseAll(recycleAfter: int, events: seq<Event>, e: nat)
    requires IsRun(INITIAL, recycleAfter, events) && e < |Run(INITIAL, recycleAfter, events).exits|
    requires forall d :: 0 <= d <= e ==> Run(INITIAL, recycleAfter, events).exits[d].phase == Finished
    ensures var s := Run(INITIAL, recycleAfter, events); forall i: nat :: i < s.exits[e].gen ==> Closed(s, i)
  {
    var s := Run(INITIAL, recycleAfter, events);
    forall i: nat | i < s.exits[e].gen ensures Closed(s, i) {
      ExitClosesItsPeriod(recycleAfter, events, e, i);
    }
  }

  /** An __exit__ call in progress can always move on itself, or waits for a thread that can,
      or for an unfinished task of a pool it answers for. */
  lemma ExitIsNeverStuck(s: State, e: nat)
    requires Inv(s) && e < |s.exits| && s.exits[e].phase != Finished
    ensures || Enabled(s, ExitJoin(e)) || Enabled(s, ExitShutdown(e)) || Enabled(s, ExitReturn(e))
            || (exists t :: t in s.exits[e].joins && (Enabled(s, ThreadBegin(t)) || Enabled(s, ThreadFinish(t))))
            || (exists i, k :: 0 <= i < |s.pools| && 0 <= k < |s.pools[i].futures| && Answers(s, e, i) &&
                               s.pools[i].stage == Closing && !s.pools[i].futures[k] && Enabled(s, Complete(i, k)))
  {
    var x := s.exits[e];
    assert ExitOk(s, e);
    if x.joins != [] {
      var t := x.joins[0];
      assert t in x.joins && ThreadOk(s, t);
      if Alive(s.threads, t) && s.threads[t].target.Some? {
        assert PoolOk(s, s.threads[t].target.value);
      }
    } else if x.pool.Some? {
      assert PoolOk(s, x.pool.value);
    }
  }

  // ------------------------------------------------- recycling while entered

  /** Nothing is installed or retiring outside the entered period. */
  predicate AtRestWhenLeft(s: State) {
    if s.entered then s.installed.Some? else s.installed.None? && s.cleanup == []
  }

  /** recycle_if_needed is past its threshold only between __enter__ and __exit__. */
  predicate Confined(s: State, recycleAfter: int, events: seq<Event>)
    requires IsRun(s, recycleAfter, events)
    decreases |events|
  {
    events == [] ||
    (&& (events[0].Recycle? && !s.entered ==> s.tasks < recycleAfter)
     && Confined(Next(s, recycleAfter, events[0]), recycleAfter, events[1..]))
  }

  lemma {:induction false} ConfinedRunsRest(s: State, recycleAfter: int, events: seq<Event>)
    requires Inv(s) && AtRestWhenLeft(s) && IsRun(s, recycleAfter, events) && Confined(s, recycleAfter, events)
    ensures AtRestWhenLeft(Run(s, recycleAfter, events)) && Inv(Run(s, recycleAfter, events))
    decreases |events|
  {
    hide Inv;
    if events != [] {
      StepKeepsInv(s, recycleAfter, events[0]);
      ConfinedRunsRest(Next(s, recycleAfter, events[0]), recycleAfter, events[1..]);
    }
  }

  /** With recycling confined to the entered period: once everyone has left and every __exit__
      has returned, every pool ever created was shut down exactly once and every task is done. */
  lemma AllShutAfterExit(recycleAfter: int, events: seq<Event>, i: nat)
    requires IsRun(INITIAL, recycleAfter, events) && Confined(INITIAL, recycleAfter, events)
    requires var s := Run(INITIAL, recycleAfter, events);
             !s.entered && i < |s.pools| && forall e :: 0 <= e < |s.exits| ==> s.exits[e].phase == Finished
    ensures var p := Run(INITIAL, recycleAfter, events).pools[i];
            p.stage == Shut && p.shutdowns == 1 && AllDone(p.futures)
  {
    var s := Run(INITIAL, recycleAfter, events);
    InitialInv();
    ConfinedRunsRest(INITIAL, recycleAfter, events);
    assert PoolOk(s, i);
    forall e | 0 <= e < |s.exits| ensures s.exits[e].joins == [] { assert ExitOk(s, e); }
    forall t | 0 <= t < |s.threads| ensures !Alive(s.threads, t) { assert !Tracked(s, t); }
    assert s.pools[i].holder.ByThread? ==> !Alive(s.threads, s.pools[i].holder.thread);
  }

  /** The precondition is exact: after leaving, recycle_if_needed keeps the pool at rest if and
      only if the stale task count is below the threshold. */
  lemma LateRecycleLeaks(s: State, recycleAfter: int)
    requires Inv(s) && AtRestWhenLeft(s) && !s.entered
    ensures AtRestWhenLeft(AfterRecycle(s, recycleAfter)) <==> s.tasks < recycleAfter
    ensures s.tasks >= recycleAfter ==>
              var s' := AfterRecycle(s, recycleAfter);
              && s'.installed == Some(|s.pools|) && !s'.entered && s'.pools[|s.pools|].stage == Open
              && forall e :: 0 <= e < |s'.exits| ==> !Answers(s', e, |s.pools|)
  {
    if s.tasks >= recycleAfter {
      var s' := AfterRecycle(s, recycleAfter);
      forall e | 0 <= e < |s'.exits| ensures !Answers(s', e, |s.pools|) {
        assert ExitOk(s, e);
        forall t | t in s'.exits[e].joins ensures s'.threads[t].target != Some(|s.pools|) { assert ThreadOk(s, t); }
      }
    }
  }

  /** Every state of the run is at rest whenever nobody is inside. */
  predicate AlwaysAtRest(s: State, recycleAfter: int, events: seq<Event>)
    requires IsRun(s, recycleAfter, events)
    decreases |events|
  {
    && AtRestWhenLeft(s)
    && (events == [] || AlwaysAtRest(Next(s, recycleAfter, events[0]), recycleAfter, events[1..]))
  }

  /** A run leaves nothing behind at any moment if and only if its recycling past the threshold
      is confined to the entered period. */
  lemma {:induction false} AtRestIffConfined(s: State, recycleAfter: int, events: seq<Event>)
    requires Inv(s) && AtRestWhenLeft(s) && IsRun(s, recycleAfter, events)
    ensures AlwaysAtRest(s, recycleAfter, events) <==> Confined(s, recycleAfter, events)
    decreases |events|
  {
    hide Inv;
    if events != [] {
      var s' := Next(s, recycleAfter, events[0]);
      StepKeepsInv(s, recycleAfter, events[0]);
      if AtRestWhenLeft(s') { AtRestIffConfined(s', recycleAfter, events[1..]); }
    }
  }

  /** Order matters: recycling never happens, the second of two overlapping __exit__ calls has
      returned, and the first one's pool is still open with a task under way. */
  lemma OverlappingExitsExample(recycleAfter: int) returns (events: seq<Event>)
    ensures events == [Enter, Submit(0, true), ExitSwap, Enter, ExitSwap, ExitShutdown(1), ExitReturn(1)]
    ensures IsRun(INITIAL, recycleAfter, events) && Confined(INITIAL, recycleAfter, events)
    ensures var s := Run(INITIAL, recycleAfter, events);
            && |s.exits| == 2 && s.exits[1].phase == Finished && s.exits[1].gen == 2
            && |s.pools| == 2 && s.pools[0].stage == Open && s.pools[0].futures == [false] && StillHolds(s, 0, 0)
  {
    var s1 := Next(INITIAL, recycleAfter, Enter);
    var s2 := Next(s1, recycleAfter, Submit(0, true));
    events := SecondExitReturns(s2, recycleAfter);
    events := RunCons(s1, recycleAfter, Submit(0, true), events);
    events := RunCons(INITIAL, recycleAfter, Enter, events);
    WithoutRecyclingConfined(INITIAL, recycleAfter, events);
  }

  lemma SecondExitReturns(s: State, recycleAfter: int) returns (events: seq<Event>)
    requires s.installed == Some(0) && s.gen == 1 && s.cleanup == [] && s.exits == [] && |s.pools| == 1
    requires s.pools[0].stage == Open && s.pools[0].futures == [false]
    ensures events == [ExitSwap, Enter, ExitSwap, ExitShutdown(1), ExitReturn(1)]
    ensures IsRun(s, recycleAfter, events)
    ensures var s' := Run(s, recycleAfter, events);
            && |s'.exits| == 2 && s'.exits[1].phase == Finished && s'.exits[1].gen == 2
            && |s'.pools| == 2 && s'.pools[0].stage == Open && s'.pools[0].futures == [false] && StillHolds(s', 0, 0)
  {
    var s1 := Next(s, recycleAfter, ExitSwap);
    var s2 := Next(s1, recycleAfter, Enter);
    events := SecondPeriodEnds(s2, recycleAfter);
    events := RunCons(s1, recycleAfter, Enter, events);
    events := RunCons(s, recycleAfter, ExitSwap, events);
  }

  lemma SecondPeriodEnds(s: State, recycleAfter: int) returns (events: seq<Event>)
    requires s.installed == Some(1) && s.gen == 2 && s.cleanup == [] && s.exits == [ExitCall(Some(0), 1, [], Started)]
    requires |s.pools| == 2 && s.pools[0].stage == Open && s.pools[0].futures == [false] && s.pools[1].futures == []
    ensures events == [ExitSwap, ExitShutdown(1), ExitReturn(1)] && IsRun(s, recycleAfter, events)
    ensures var s' := Run(s, recycleAfter, events);
            && |s'.exits| == 2 && s'.exits[1].phase == Finished && s'.exits[1].gen == 2
            && |s'.pools| == 2 && s'.pools[0].stage == Open && s'.pools[0].futures == [false] && StillHolds(s', 0, 0)
  {
    var s1 := Next(s, recycleAfter, ExitSwap);
    var s2 := Next(s1, recycleAfter, ExitShutdown(1));
    events := RunCons(s2, recycleAfter, ExitReturn(1), []);
    events := RunCons(s1, recycleAfter, ExitShutdown(1), events);
    events := RunCons(s, recycleAfter, ExitSwap, events);
  }

  lemma {:induction false} WithoutRecyclingConfined(s: State, recycleAfter: int, events: seq<Event>)
    requires IsRun(s, recycleAfter, events) && forall i :: 0 <= i < |events| ==> !events[i].Recycle?
    ensures Confined(s, recycleAfter, events)
    decreases |events|
  {
    if events != [] { WithoutRecyclingConfined(Next(s, recycleAfter, events[0]), recycleAfter, events[1..]); }
  }

  /** Such a state is reached: __exit__ does not clear the task count. */
  lemma LateRecycleExample() returns (events: seq<Event>)
    ensures IsRun(INITIAL, 1, events)
    ensures var s := Run(INITIAL, 1, events);
            !s.entered && s.installed == Some(1) && forall e :: 0 <= e < |s.exits| ==> s.exits[e].phase == Finished
  {
    var s1 := Next(INITIAL, 1, Enter);
    var s2 := Next(s1, 1, Submit(0, true));
    var s3 := Next(s2, 1, Complete(0, 0));
    var tail := LeaveThenRecycle(s3);
    tail := RunCons(s2, 1, Complete(0, 0), tail);
    tail := RunCons(s1, 1, Submit(0, true), tail);
    events := RunCons(INITIAL, 1, Enter, tail);
  }

  /** From one finished task: leave, then recycle. */
  lemma LeaveThenRecycle(s3: State) returns (events: seq<Event>)
    requires s3.installed == Some(0) && s3.tasks == 1 && s3.cleanup == [] && s3.exits == []
    requires |s3.pools| == 1 && s3.pools[0].stage == Open && AllDone(s3.pools[0].futures)
    ensures IsRun(s3, 1, events)
    ensures var s := Run(s3, 1, events);
            !s.entered && s.installed == Some(1) && forall e :: 0 <= e < |s.exits| ==> s.exits[e].phase == Finished
  {
    var s4 := Next(s3, 1, ExitSwap);
    var s5 := Next(s4, 1, ExitShutdown(0));
    var s6 := Next(s5, 1, ExitReturn(0));
    events := RunCons(s6, 1, Recycle(0), []);
    events := RunCons(s5, 1, ExitReturn(0), events);
    events := RunCons(s4, 1, ExitShutdown(0), events);
    events := RunCons(s3, 1, ExitSwap, events);
  }

  /** Prefixing a run with one step. */
  lemma RunCons(s: State, recycleAfter: int, e: Event, rest: seq<Event>) returns (events: seq<Event>)
    requires Enabled(s, e) && IsRun(Next(s, recycleAfter, e), recycleAfter, rest)
    ensures events == [e] + rest && IsRun(s, recycleAfter, events)
    ensures Run(s, recycleAfter, events) == Run(Next(s, recycleAfter, e), recycleAfter, rest)
  {
    events := [e] + rest;
    assert events[1..] == rest;
  }

  // --------------------------------------------------- tasks a pool receives

  /** Each of k clients calls recycle_if_needed before each of its submissions; armed are the
      clients that have recycled and not yet submitted. */
  predicate Disciplined(k: nat, armed: set<nat>, events: seq<Event>)
    decreases |events|
  {
    events == [] ||
    match events[0]
    case Recycle(c) => c < k && Disciplined(k, armed + {c}, events[1..])
    case Submit(c, _) => c in armed && Disciplined(k, armed - {c}, events[1..])
    case _ => Disciplined(k, armed, events[1..])
  }

  /** recycle_after + k - 1, where a threshold below one acts like one. */
  function Cap(recycleAfter: int, k: nat): int {
    (if recycleAfter >= 1 then recycleAfter else 1) + k - 1
  }

  /** The tasks counted so far plus those the armed clients may still add stay in the budget. */
  predicate WithinBudget(s: State, recycleAfter: int, k: nat, armed: set<nat>) {
    && (forall c :: c in armed ==> c < k)
    && s.tasks + |armed| <= Cap(recycleAfter, k)
    && (forall i :: 0 <= i < |s.pools| ==> s.pools[i].attempts <= Cap(recycleAfter, k))
  }

  lemma {:induction false} BelowCard(armed: set<nat>, k: nat)
    requires forall c :: c in armed ==> c < k
    ensures |armed| <= k
  {
    if k == 0 {
      assert armed == {};
    } else {
      BelowCard(armed - {k - 1}, k - 1);
      assert k - 1 in armed ==> armed == (armed - {k - 1}) + {k - 1};
      assert k - 1 !in armed ==> armed == armed - {k - 1};
    }
  }

  lemma RecycleWithinBudget(s: State, recycleAfter: int, k: nat, armed: set<nat>, c: nat)
    requires Inv(s) && WithinBudget(s, recycleAfter, k, armed) && c < k
    ensures WithinBudget(AfterRecycle(s, recycleAfter), recycleAfter, k, armed + {c})
  {
    BelowCard(armed + {c}, k);
  }

  lemma SubmitWithinBudget(s: State, recycleAfter: int, k: nat, armed: set<nat>, c: nat, accepted: bool)
    requires Inv(s) && WithinBudget(s, recycleAfter, k, armed) && c in armed
    ensures WithinBudget(AfterSubmit(s, accepted), recycleAfter, k, armed - {c})
  {
    assert s.installed.Some? ==> PoolOk(s, s.installed.value);
    assert |armed - {c}| == |armed| - 1;
  }

  lemma {:induction false} RunWithinBudget(s: State, recycleAfter: int, k: nat, armed: set<nat>, events: seq<Event>)
    requires Inv(s) && k >= 1 && WithinBudget(s, recycleAfter, k, armed)
    requires IsRun(s, recycleAfter, events) && Disciplined(k, armed, events)
    ensures forall i :: 0 <= i < |Run(s, recycleAfter, events).pools| ==>
              Run(s, recycleAfter, events).pools[i].attempts <= Cap(recycleAfter, k)
    decreases |events|
  {
    hide Inv;
    if events != [] {
      var e := events[0];
      var s' := Next(s, recycleAfter, e);
      StepKeepsInv(s, recycleAfter, e);
      match e
      case Recycle(c) =>
        RecycleWithinBudget(s, recycleAfter, k, armed, c);
        RunWithinBudget(s', recycleAfter, k, armed + {c}, events[1..]);
      case Submit(c, accepted) =>
        SubmitWithinBudget(s, recycleAfter, k, armed, c, accepted);
        RunWithinBudget(s', recycleAfter, k, armed - {c}, events[1..]);
      case _ =>
        BelowCard(armed, k);
        RunWithinBudget(s', recycleAfter, k, armed, events[1..]);
    }
  }

  /** No pool ever receives more than recycle_after + k - 1 tasks from k clients. */
  lemma PoolTaskBound(recycleAfter: int, k: nat, events: seq<Event>, i: nat)
    requires k >= 1 && IsRun(INITIAL, recycleAfter, events) && Disciplined(k, {}, events)
    requires i < |Run(INITIAL, recycleAfter, events).pools|
    ensures var p := Run(INITIAL, recycleAfter, events).pools[i];
            |p.futures| <= p.attempts <= (if recycleAfter >= 1 then recycleAfter else 1) + k - 1
  {
    InitialInv();
    RunWithinBudget(INITIAL, recycleAfter, k, {}, events);
    PoolsRecordTheirTasks(recycleAfter, events, i);
    AcceptedAmongSubmitted(INITIAL, recycleAfter, events, i);
  }

  lemma {:induction false} AcceptedAmongSubmitted(s: State, recycleAfter: int, events: seq<Event>, i: nat)
    requires IsRun(s, recycleAfter, events)
    ensures Submissions(s, recycleAfter, events, i, false) <= Submissions(s, recycleAfter, events, i, true)
    decreases |events|
  {
    hide Next, Enabled;
    if events != [] {
      AcceptedAmongSubmitted(Next(s, recycleAfter, events[0]), recycleAfter, events[1..], i);
    }
  }

  function UpTo(k: nat): (r: set<nat>)
    ensures forall c: nat :: c in r <==> c < k
  {
    if k == 0 then {} else UpTo(k - 1) + {k - 1}
  }

  /** The pool created last is installed and has room below the threshold. */
  predicate Serving(s: State) {
    && s.installed.Some? && s.installed.value + 1 == |s.pools|
    && s.pools[s.installed.value].attempts == s.tasks
  }

  function LastAttempts(s: State): nat
    requires s.pools != []
  {
    s.pools[|s.pools| - 1].attempts
  }

  lemma {:induction false} SubmitAll(s: State, recycleAfter: int, k: nat, n: nat) returns (events: seq<Event>)
    requires Serving(s) && n <= k
    ensures IsRun(s, recycleAfter, events) && Disciplined(k, UpTo(n), events)
    ensures Serving(Run(s, recycleAfter, events)) && LastAttempts(Run(s, recycleAfter, events)) == s.tasks + n
    decreases n
  {
    if n == 0 {
      events := [];
    } else {
      var e := Submit(n - 1, true);
      var rest := SubmitAll(Next(s, recycleAfter, e), recycleAfter, k, n - 1);
      events := RunCons(s, recycleAfter, e, rest);
      assert UpTo(n) - {n - 1} == UpTo(n - 1);
    }
  }

  lemma {:induction false} ArmAll(s: State, recycleAfter: int, k: nat, n: nat) returns (events: seq<Event>)
    requires Serving(s) && s.tasks < Cap(recycleAfter, 1) && n <= k
    ensures IsRun(s, recycleAfter, events) && Disciplined(k, UpTo(n), events)
    ensures Serving(Run(s, recycleAfter, events)) && LastAttempts(Run(s, recycleAfter, events)) == s.tasks + k
    decreases k - n
  {
    if n == k {
      events := SubmitAll(s, recycleAfter, k, k);
    } else {
      var rest := ArmAll(Next(s, recycleAfter, Recycle(n)), recycleAfter, k, n + 1);
      events := RunCons(s, recycleAfter, Recycle(n), rest);
      assert UpTo(n) + {n} == UpTo(n + 1);
    }
  }

  lemma {:induction false} SoloRounds(s: State, recycleAfter: int, k: nat) returns (events: seq<Event>)
    requires Serving(s) && s.tasks < Cap(recycleAfter, 1) && k >= 1
    ensures IsRun(s, recycleAfter, events) && Disciplined(k, {}, events)
    ensures Serving(Run(s, recycleAfter, events)) && LastAttempts(Run(s, recycleAfter, events)) == Cap(recycleAfter, k)
    decreases recycleAfter - s.tasks
  {
    if s.tasks == Cap(recycleAfter, 1) - 1 {
      assert UpTo(0) == {};
      events := ArmAll(s, recycleAfter, k, 0);
    } else {
      var rest := SoloRounds(Next(s, recycleAfter, Submit(0, true)), recycleAfter, k);
      var tail := RunCons(s, recycleAfter, Submit(0, true), rest);
      events := RunCons(s, recycleAfter, Recycle(0), tail);
      assert ({} + {0}) - {0} == {};
    }
  }

  /** The bound is tight: some disciplined run of k clients reaches it. */
  lemma PoolTaskBoundIsTight(recycleAfter: int, k: nat) returns (events: seq<Event>)
    requires k >= 1
    ensures IsRun(INITIAL, recycleAfter, events) && Disciplined(k, {}, events)
    ensures var s := Run(INITIAL, recycleAfter, events);
            s.pools != [] && LastAttempts(s) == Cap(recycleAfter, k)
  {
    var rest := SoloRounds(Next(INITIAL, recycleAfter, Enter), recycleAfter, k);
    events := RunCons(INITIAL, recycleAfter, Enter, rest);
  }

  // ---------------------------------------------------------------- the class

  /** The object itself: each locked block is one method, proved to be one step. */
  class RecyclingPool2 {
    const recycleAfter: int
    var tasks: nat
    var gen: nat
    var pool: Option<nat>             // index into pools
    var cleanupThreads: seq<nat>      // indices into threads
    var pools: seq<Pool>              // the executors created so far
    var threads: seq<Retirer>         // the retirement threads created so far
    var exits: seq<ExitCall>          // the __exit__ calls made so far
    ghost var entered: bool

    ghost function View(): State reads this {
      State(pool, gen, tasks, cleanupThreads, pools, threads, exits, entered)
    }

    constructor (recycleAfter: int)
      ensures View() == INITIAL && this.recycleAfter == recycleAfter
    {
      this.recycleAfter := recycleAfter;
      tasks, gen, pool, cleanupThreads := 0, 0, None, [];
      pools, threads, exits, entered := [], [], [], false;
    }

    method NewPool() returns (p: nat)
      modifies this`gen, this`pools
      ensures p == |old(pools)| && gen == old(gen) + 1
      ensures pools == old(pools) + [Pool(gen, 0, [], Open, 0, Installed)]
    {
      gen := gen + 1;
      p := |pools|;
      pools := pools + [Pool(gen, 0, [], Open, 0, Installed)];
    }

    method Enter() returns (raised: bool)
      requires Inv(View())
      modifies this
      ensures raised == old(pool).Some?
      ensures View() == Next(old(View()), recycleAfter, Event.Enter) && Inv(View())
    {
      StepKeepsInv(View(), recycleAfter, Event.Enter);
      if pool.Some? {
        return true;
      }
      var p := NewPool();
      pool := Some(p);
      tasks := 0;
      entered := true;
      raised := false;
    }

    /** The locked block of __exit__: what is to be joined, and the pool to shut down. */
    method ExitBlock() returns (taken: Option<nat>, joins: seq<nat>)
      requires Inv(View())
      modifies this
      ensures taken == old(pool) && joins == old(cleanupThreads)
      ensures View() == Next(old(View()), recycleAfter, ExitSwap) && Inv(View())
    {
      StepKeepsInv(View(), recycleAfter, ExitSwap);
      taken := pool;
      joins := cleanupThreads;
      exits := exits + [ExitCall(pool, gen, cleanupThreads, Started)];
      if pool.Some? {
        pools := pools[pool.value := pools[pool.value].(holder := ByExit(|exits| - 1))];
      }
      pool := None;
      cleanupThreads := [];
      entered := false;
    }

    /** accepted is the executor's answer: whether it queued the task or raised. */
    method Submit(ghost client: nat, accepted: bool) returns (raised: bool)
      requires Inv(View())
      modifies this
      ensures raised == (old(pool).None? || !accepted)
      ensures View() == Next(old(View()), recycleAfter, Event.Submit(client, accepted)) && Inv(View())
    {
      StepKeepsInv(View(), recycleAfter, Event.Submit(client, accepted));
      if pool.None? {
        return true;
      }
      tasks := tasks + 1;
      var p := pools[pool.value];
      pools := pools[pool.value := p.(attempts := p.attempts + 1,
                                      futures := if accepted then p.futures + [false] else p.futures)];
      raised := !accepted;
    }

    method RecycleIfNeeded(ghost client: nat)
      requires Inv(View())
      modifies this
      ensures View() == Next(old(View()), recycleAfter, Recycle(client)) && Inv(View())
    {
      StepKeepsInv(View(), recycleAfter, Recycle(client));
      if tasks < recycleAfter {
        return;
      }
      var oldPool := pool;
      if oldPool.Some? {
        pools := pools[oldPool.value := pools[oldPool.value].(holder := ByThread(|threads|))];
      }
      var p := NewPool();
      pool := Some(p);
      tasks := 0;
      cleanupThreads := Prune(threads, cleanupThreads);
      threads := threads + [Retirer(oldPool, Started)];
      cleanupThreads := cleanupThreads + [|threads| - 1];
    }
  }
}
