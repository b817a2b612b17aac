/** recycling_pool.py as a transition system.  The executor's shutdown(wait=True) runs while
    the lock is held, so a locked block that waits is two steps with the lock kept between
    them; drain_fn runs between two locked blocks and may do anything, even raise. */
module RecyclingPool {
  import opened Options
  import opened Executors
  import R2 = RecyclingPool2

  datatype Pool = Pool(attempts: nat, futures: seq<bool>, stage: Stage)

  datatype Lock = Free | HeldByExit | HeldByRecycle(client: nat)

  /** Where a client stands in recycle_if_needed. */
  datatype Mode = Outside | Draining | Replacing

  datatype State = State(installed: Option<nat>, tasks: nat, pools: seq<Pool>, lock: Lock, clients: seq<Mode>)

  function Initial(k: nat): State {
    State(None, 0, [], Free, seq(k, _ => Outside))
  }

  datatype Event =
    | Enter
    | ExitBegin
    | ExitEnd
    | Submit(client: nat, accepted: bool)
    | Check(client: nat)
    | DrainRaises(client: nat)
    | ReplaceBegin(client: nat)
    | ReplaceEnd(client: nat)
    | Complete(pool: nat, index: nat)

  predicate Installs(s: State) {
    s.installed.Some? ==> s.installed.value < |s.pools|
  }

  function WithStage(s: State, i: nat, stage: Stage): State
    requires i < |s.pools|
  {
    s.(pools := s.pools[i := s.pools[i].(stage := stage)])
  }

  function WithMode(s: State, c: nat, mode: Mode): State
    requires c < |s.clients|
  {
    s.(clients := s.clients[c := mode])
  }

  function InstallNew(s: State): State {
    s.(installed := Some(|s.pools|), pools := s.pools + [Pool(0, [], Open)])
  }

  predicate Enabled(s: State, e: Event) {
    match e
    case Enter => s.lock == Free
    case ExitBegin => s.lock == Free && Installs(s)
    case ExitEnd =>
      s.lock == HeldByExit && s.installed.Some? && Installs(s) && AllDone(s.pools[s.installed.value].futures)
    case Submit(c, _) => s.lock == Free && Installs(s)
    case Check(c) => s.lock == Free && c < |s.clients| && s.clients[c] == Outside
    case DrainRaises(c) => c < |s.clients| && s.clients[c] == Draining
    case ReplaceBegin(c) => s.lock == Free && c < |s.clients| && s.clients[c] == Draining && Installs(s)
    case ReplaceEnd(c) =>
      && s.lock == HeldByRecycle(c) && c < |s.clients| && s.installed.Some? && Installs(s)
      && AllDone(s.pools[s.installed.value].futures)
    case Complete(p, i) => p < |s.pools| && i < |s.pools[p].futures|
  }

  function Next(s: State, recycleAfter: int, e: Event): State
    requires Enabled(s, e)
  {
    match e
    // entering twice raises; the task count of an earlier period is kept
    case Enter => if s.installed.Some? then s else InstallNew(s)
    case ExitBegin =>
      if s.installed.None? then s else WithStage(s, s.installed.value, Closing).(lock := HeldByExit)
    case ExitEnd => WithStage(s, s.installed.value, Shut).(installed := None, lock := Free)
    case Submit(_, accepted) =>
      if s.installed.None? then s
      else
        var p := s.pools[s.installed.value];
        s.(tasks := s.tasks + 1,
           pools := s.pools[s.installed.value := p.(attempts := p.attempts + 1,
                                                    futures := if accepted then p.futures + [false] else p.futures)])
    case Check(c) => if s.tasks < recycleAfter then s else WithMode(s, c, Draining)
    case DrainRaises(c) => WithMode(s, c, Outside)
    // dereferencing a pool that __exit__ removed meanwhile raises
    case ReplaceBegin(c) =>
      if s.installed.None? then WithMode(s, c, Outside)
      else WithMode(WithStage(s, s.installed.value, Closing), c, Replacing).(lock := HeldByRecycle(c))
    case ReplaceEnd(c) =>
      InstallNew(WithMode(WithStage(s, s.installed.value, Shut), c, Outside)).(tasks := 0, lock := Free)
    case Complete(p, i) =>
      s.(pools := s.pools[p := s.pools[p].(futures := s.pools[p].futures[i := true])])
  }

  predicate IsRun(s: State, recycleAfter: int, events: seq<Event>)
    decreases |events|
  {
    events == [] || (Enabled(s, events[0]) && IsRun(Next(s, recycleAfter, events[0]), recycleAfter, events[1..]))
  }

  function Run(s: State, recycleAfter: int, events: seq<Event>): State
    requires IsRun(s, recycleAfter, events)
    decreases |events|
  {
    if events == [] then s else Run(Next(s, recycleAfter, events[0]), recycleAfter, events[1..])
  }

  // -------------------------------------------------------------- invariant

  predicate PoolOk(s: State, i: nat)
    requires i < |s.pools|
  {
    if s.installed == Some(i) then
      s.pools[i].attempts <= s.tasks && s.pools[i].stage == (if s.lock == Free then Open else Closing)
    else
      s.pools[i].stage == Shut && AllDone(s.pools[i].futures)
  }

  ghost predicate Inv(s: State) {
    && Installs(s)
    && (s.lock != Free ==> s.installed.Some?)
    && (s.lock.HeldByRecycle? ==> s.lock.client < |s.clients|)
    && (forall c :: 0 <= c < |s.clients| ==> (s.clients[c] == Replacing <==> s.lock == HeldByRecycle(c)))
    && (forall i :: 0 <= i < |s.pools| ==> PoolOk(s, i))
  }

  lemma StepKeepsInv(s: State, recycleAfter: int, e: Event)
    requires Inv(s) && Enabled(s, e)
    ensures Inv(Next(s, recycleAfter, e))
  {
    var s' := Next(s, recycleAfter, e);
    forall i | 0 <= i < |s'.pools| ensures PoolOk(s', i) { assert i < |s.pools| ==> PoolOk(s, i); }
  }

  lemma {:induction false} RunKeepsInv(s: State, recycleAfter: int, events: seq<Event>)
    requires Inv(s) && IsRun(s, recycleAfter, events)
    ensures Inv(Run(s, recycleAfter, events))
    decreases |events|
  {
    if events != [] {
      StepKeepsInv(s, recycleAfter, events[0]);
      RunKeepsInv(Next(s, recycleAfter, events[0]), recycleAfter, events[1..]);
    }
  }

  /** In every interleaving of any number of clients, even when several of them pass the
      threshold check together: at most one pool is not shut, it is the installed one, and
      every task of every replaced pool is done. */
  lemma AtMostOneLivePool(k: nat, recycleAfter: int, events: seq<Event>, i: nat)
    requires IsRun(Initial(k), recycleAfter, events) && i < |Run(Initial(k), recycleAfter, events).pools|
    ensures var s := Run(Initial(k), recycleAfter, events);
            && (s.pools[i].stage != Shut <==> s.installed == Some(i))
            && (s.installed != Some(i) ==> AllDone(s.pools[i].futures))
    ensures var s := Run(Initial(k), recycleAfter, events);
            s.installed == Some(i) ==> s.pools[i].attempts <= s.tasks
  {
    RunKeepsInv(Initial(k), recycleAfter, events);
    assert PoolOk(Run(Initial(k), recycleAfter, events), i);
  }

  /** Whoever holds the lock can let go of it, or waits for a task of the pool being shut down
      that is not done and can complete. */
  lemma LockIsReleased(s: State)
    requires Inv(s) && s.lock != Free
    ensures s.installed.Some? && s.installed.value < |s.pools|
    ensures || (s.lock.HeldByExit? && Enabled(s, ExitEnd))
            || (s.lock.HeldByRecycle? && Enabled(s, ReplaceEnd(s.lock.client)))
            || exists i :: 0 <= i < |s.pools[s.installed.value].futures|
                 && !s.pools[s.installed.value].futures[i] && Enabled(s, Complete(s.installed.value, i))
  {
    var p := s.pools[s.installed.value];
    if !AllDone(p.futures) {
      var i :| 0 <= i < |p.futures| && !p.futures[i];
      assert Enabled(s, Complete(s.installed.value, i));
    }
  }

  // --------------------------------------------- what a pool's record means

  /** The submissions made while pool i was installed, all of them or only those its executor
      accepted. */
  function Submissions(s: State, recycleAfter: int, events: seq<Event>, i: nat, all: bool): nat
    requires IsRun(s, recycleAfter, events)
    decreases |events|
  {
    if events == [] then 0
    else
      var rest := Submissions(Next(s, recycleAfter, events[0]), recycleAfter, events[1..], i, all);
      if Reaches(s, events[0], i, all) then 1 + rest else rest
  }

  predicate Reaches(s: State, e: Event, i: nat, all: bool) {
    e.Submit? && s.installed == Some(i) && (all || e.accepted)
  }

  function AttemptsOf(s: State, i: nat): nat {
    if i < |s.pools| then s.pools[i].attempts else 0
  }

  function FuturesOf(s: State, i: nat): seq<bool> {
    if i < |s.pools| then s.pools[i].futures else []
  }

  predicate DoneAt(s: State, i: nat, k: nat) {
    k < |FuturesOf(s, i)| && FuturesOf(s, i)[k]
  }

  lemma StepRecords(s: State, recycleAfter: int, e: Event, i: nat, k: nat)
    requires Enabled(s, e)
    ensures var s' := Next(s, recycleAfter, e);
            && AttemptsOf(s', i) == AttemptsOf(s, i) + (if Reaches(s, e, i, true) then 1 else 0)
            && |FuturesOf(s', i)| == |FuturesOf(s, i)| + (if Reaches(s, e, i, false) then 1 else 0)
            && (DoneAt(s', i, k) <==> DoneAt(s, i, k) || e == Complete(i, k))
  {
  }

  lemma {:induction false} RunRecords(s: State, recycleAfter: int, events: seq<Event>, i: nat, k: nat)
    requires IsRun(s, recycleAfter, events)
    ensures var s' := Run(s, recycleAfter, events);
            && AttemptsOf(s', i) == AttemptsOf(s, i) + Submissions(s, recycleAfter, events, i, true)
            && |FuturesOf(s', i)| == |FuturesOf(s, i)| + Submissions(s, recycleAfter, events, i, false)
            && (DoneAt(s', i, k) <==> DoneAt(s, i, k) || Complete(i, k) in events)
    decreases |events|
  {
    hide AttemptsOf, FuturesOf, DoneAt, Next, Enabled, Reaches;
    if events != [] {
      var s' := Next(s, recycleAfter, events[0]);
      StepRecords(s, recycleAfter, events[0], i, k);
      RunRecords(s', recycleAfter, events[1..], i, k);
      assert events == [events[0]] + events[1..];
    }
  }

  /** In every run a pool's record is exact: every submission made while it was installed is
      counted, refused or not, every accepted one has its future, and a future is done exactly
      when that task has completed. */
  lemma PoolsRecordTheirTasks(k: nat, recycleAfter: int, events: seq<Event>, i: nat)
    requires IsRun(Initial(k), recycleAfter, events) && i < |Run(Initial(k), recycleAfter, events).pools|
    ensures var p := Run(Initial(k), recycleAfter, events).pools[i];
            && p.attempts == Submissions(Initial(k), recycleAfter, events, i, true)
            && |p.futures| == Submissions(Initial(k), recycleAfter, events, i, false)
            && forall j :: 0 <= j < |p.futures| ==> (p.futures[j] <==> Complete(i, j) in events)
  {
    var s := Run(Initial(k), recycleAfter, events);
    RunRecords(Initial(k), recycleAfter, events, i, 0);
    forall j | 0 <= j < |s.pools[i].futures| ensures s.pools[i].futures[j] <==> Complete(i, j) in events {
      RunRecords(Initial(k), recycleAfter, events, i, j);
      assert DoneAt(s, i, j) <==> s.pools[i].futures[j];
    }
  }

  // ------------------------------------------------------ counting and re-entry

  /** The count is the number of submissions made to the installed pool. */
  predicate CountsInstalled(s: State) {
    s.installed.Some? ==> s.installed.value < |s.pools| && s.pools[s.installed.value].attempts == s.tasks
  }

  predicate AlwaysCountsInstalled(s: State, recycleAfter: int, events: seq<Event>)
    requires IsRun(s, recycleAfter, events)
    decreases |events|
  {
    && CountsInstalled(s)
    && (events == [] || AlwaysCountsInstalled(Next(s, recycleAfter, events[0]), recycleAfter, events[1..]))
  }

  /** Every __enter__ that installs a pool finds a count of zero. */
  predicate EntersAtZero(s: State, recycleAfter: int, events: seq<Event>)
    requires IsRun(s, recycleAfter, events)
    decreases |events|
  {
    events == [] ||
    (&& (events[0].Enter? && s.installed.None? ==> s.tasks == 0)
     && EntersAtZero(Next(s, recycleAfter, events[0]), recycleAfter, events[1..]))
  }

  /** Neither __enter__ nor __exit__ clears the count: it is right throughout a run if and only
      if nobody enters with a count left over. */
  lemma {:induction false} CountIffEntersAtZero(s: State, recycleAfter: int, events: seq<Event>)
    requires Inv(s) && CountsInstalled(s) && IsRun(s, recycleAfter, events)
    ensures AlwaysCountsInstalled(s, recycleAfter, events) <==> EntersAtZero(s, recycleAfter, events)
    decreases |events|
  {
    if events != [] {
      var s' := Next(s, recycleAfter, events[0]);
      StepKeepsInv(s, recycleAfter, events[0]);
      StepCountsInstalled(s, recycleAfter, events[0]);
      hide Inv, Next, Enabled, CountsInstalled;
      if CountsInstalled(s') { CountIffEntersAtZero(s', recycleAfter, events[1..]); }
    }
  }

  lemma StepCountsInstalled(s: State, recycleAfter: int, e: Event)
    requires Inv(s) && CountsInstalled(s) && Enabled(s, e)
    ensures CountsInstalled(Next(s, recycleAfter, e)) <==> !(e.Enter? && s.installed.None? && s.tasks != 0)
  {
  }

  /** A left-over count is reached: one task, leave, enter again, for any number of clients. */
  lemma ReentryExample(k: nat, recycleAfter: int) returns (events: seq<Event>)
    ensures events == [Enter, Submit(0, true), Complete(0, 0), ExitBegin, ExitEnd, Enter]
    ensures IsRun(Initial(k), recycleAfter, events)
    ensures var s := Run(Initial(k), recycleAfter, events);
            s.installed == Some(1) && |s.pools| == 2 && s.pools[1].attempts == 0 && s.tasks == 1
  {
    var s1 := Next(Initial(k), recycleAfter, Enter);
    var s2 := Next(s1, recycleAfter, Submit(0, true));
    var s3 := Next(s2, recycleAfter, Complete(0, 0));
    events := LeaveAndReturn(s3, recycleAfter);
    events := RunCons(s2, recycleAfter, Complete(0, 0), events);
    events := RunCons(s1, recycleAfter, Submit(0, true), events);
    events := RunCons(Initial(k), recycleAfter, Enter, events);
  }

  lemma LeaveAndReturn(s: State, recycleAfter: int) returns (events: seq<Event>)
    requires s.lock == Free && s.installed == Some(0) && s.tasks == 1
    requires |s.pools| == 1 && AllDone(s.pools[0].futures)
    ensures events == [ExitBegin, ExitEnd, Enter] && IsRun(s, recycleAfter, events)
    ensures var s' := Run(s, recycleAfter, events);
            s'.installed == Some(1) && |s'.pools| == 2 && s'.pools[1].attempts == 0 && s'.tasks == 1
  {
    var s1 := Next(s, recycleAfter, ExitBegin);
    var s2 := Next(s1, recycleAfter, ExitEnd);
    events := RunCons(s2, recycleAfter, Enter, []);
    events := RunCons(s1, recycleAfter, ExitEnd, events);
    events := RunCons(s, recycleAfter, ExitBegin, events);
  }

  // --------------------------------------------------- tasks a pool receives

  /** The armed clients after one step: those whose last recycle_if_needed returned normally
      and who have not submitted since. */
  function Arm(s: State, recycleAfter: int, armed: set<nat>, e: Event): set<nat> {
    match e
    case Submit(c, _) => armed - {c}
    case Check(c) => if s.tasks < recycleAfter then armed + {c} else armed - {c}
    case ReplaceEnd(c) => armed + {c}
    case _ => armed
  }

  /** Every client calls recycle_if_needed before each of its submissions. */
  predicate Disciplined(s: State, recycleAfter: int, armed: set<nat>, events: seq<Event>)
    requires IsRun(s, recycleAfter, events)
    decreases |events|
  {
    events == [] ||
    (&& (events[0].Submit? ==> events[0].client in armed)
     && Disciplined(Next(s, recycleAfter, events[0]), recycleAfter,
                    Arm(s, recycleAfter, armed, events[0]), events[1..]))
  }

  predicate WithinBudget(s: State, recycleAfter: int, armed: set<nat>) {
    && (forall c :: c in armed ==> c < |s.clients|)
    && s.tasks + |armed| <= R2.Cap(recycleAfter, |s.clients|)
    && (forall i :: 0 <= i < |s.pools| ==> s.pools[i].attempts <= R2.Cap(recycleAfter, |s.clients|))
  }

  lemma StepWithinBudget(s: State, recycleAfter: int, armed: set<nat>, e: Event)
    requires Inv(s) && Enabled(s, e) && WithinBudget(s, recycleAfter, armed) && |s.clients| >= 1
    requires e.Submit? ==> e.client in armed
    ensures WithinBudget(Next(s, recycleAfter, e), recycleAfter, Arm(s, recycleAfter, armed, e))
    ensures |Next(s, recycleAfter, e).clients| == |s.clients|
  {
    var armed' := Arm(s, recycleAfter, armed, e);
    R2.BelowCard(armed', |s.clients|);
    if e.Submit? {
      assert s.installed.Some? ==> PoolOk(s, s.installed.value);
      assert |armed'| == |armed| - 1;
    }
  }

  lemma {:induction false} RunWithinBudget(s: State, recycleAfter: int, armed: set<nat>, events: seq<Event>)
    requires Inv(s) && |s.clients| >= 1 && WithinBudget(s, recycleAfter, armed)
    requires IsRun(s, recycleAfter, events) && Disciplined(s, recycleAfter, armed, events)
    ensures forall i :: 0 <= i < |Run(s, recycleAfter, events).pools| ==>
              Run(s, recycleAfter, events).pools[i].attempts <= R2.Cap(recycleAfter, |s.clients|)
    decreases |events|
  {
    hide Inv;
    if events != [] {
      StepKeepsInv(s, recycleAfter, events[0]);
      StepWithinBudget(s, recycleAfter, armed, events[0]);
      RunWithinBudget(Next(s, recycleAfter, events[0]), recycleAfter,
                      Arm(s, recycleAfter, armed, events[0]), events[1..]);
    }
  }

  /** The same bound as the non-blocking pool: recycle_after + k - 1 tasks per pool. */
  lemma PoolTaskBound(k: nat, recycleAfter: int, events: seq<Event>, i: nat)
    requires k >= 1 && IsRun(Initial(k), recycleAfter, events) && Disciplined(Initial(k), recycleAfter, {}, events)
    requires i < |Run(Initial(k), recycleAfter, events).pools|
    ensures Run(Initial(k), recycleAfter, events).pools[i].attempts <=
              (if recycleAfter >= 1 then recycleAfter else 1) + k - 1
  {
    RunWithinBudget(Initial(k), recycleAfter, {}, events);
  }

  /** Prefixing a run with one step. */
  lemma RunCons(s: State, recycleAfter: int, e: Event, rest: seq<Event>) returns (events: seq<Event>)
    requires Enabled(s, e) && IsRun(Next(s, recycleAfter, e), recycleAfter, rest)
    ensures events == [e] + rest && IsRun(s, recycleAfter, events)
    ensures Run(s, recycleAfter, events) == Run(Next(s, recycleAfter, e), recycleAfter, rest)
  {
    events := [e] + rest;
    assert events[1..] == rest;
  }

  /** A free lock, idle clients and the newest pool installed, which received every counted task. */
  predicate Serving(s: State) {
    && s.lock == Free && s.pools != [] && s.installed == Some(|s.pools| - 1)
    && s.pools[|s.pools| - 1].attempts == s.tasks
    && (forall c :: 0 <= c < |s.clients| ==> s.clients[c] == Outside)
  }

  lemma {:induction false} SubmitAll(s: State, recycleAfter: int, n: nat) returns (events: seq<Event>)
    requires Serving(s) && n <= |s.clients|
    ensures IsRun(s, recycleAfter, events) && Disciplined(s, recycleAfter, R2.UpTo(n), events)
    ensures Serving(Run(s, recycleAfter, events)) && Run(s, recycleAfter, events).tasks == s.tasks + n
    decreases n
  {
    if n == 0 {
      events := [];
    } else {
      var e := Submit(n - 1, true);
      var rest := SubmitAll(Next(s, recycleAfter, e), recycleAfter, n - 1);
      events := RunCons(s, recycleAfter, e, rest);
      assert R2.UpTo(n) - {n - 1} == R2.UpTo(n - 1);
    }
  }

  lemma {:induction false} CheckAll(s: State, recycleAfter: int, n: nat) returns (events: seq<Event>)
    requires Serving(s) && s.tasks < recycleAfter && n <= |s.clients|
    ensures IsRun(s, recycleAfter, events) && Disciplined(s, recycleAfter, R2.UpTo(n), events)
    ensures Serving(Run(s, recycleAfter, events)) && Run(s, recycleAfter, events).tasks == s.tasks + |s.clients|
    decreases |s.clients| - n
  {
    if n == |s.clients| {
      events := SubmitAll(s, recycleAfter, n);
    } else {
      var rest := CheckAll(s, recycleAfter, n + 1);
      events := RunCons(s, recycleAfter, Check(n), rest);
      assert R2.UpTo(n) + {n} == R2.UpTo(n + 1);
    }
  }

  lemma {:induction false} SoloRounds(s: State, recycleAfter: int) returns (events: seq<Event>)
    requires Serving(s) && s.tasks < recycleAfter && |s.clients| >= 1
    ensures IsRun(s, recycleAfter, events) && Disciplined(s, recycleAfter, {}, events)
    ensures Serving(Run(s, recycleAfter, events))
    ensures Run(s, recycleAfter, events).tasks == recycleAfter + |s.clients| - 1
    decreases recycleAfter - s.tasks
  {
    if s.tasks == recycleAfter - 1 {
      assert R2.UpTo(0) == {};
      events := CheckAll(s, recycleAfter, 0);
    } else {
      var rest := SoloRounds(Next(s, recycleAfter, Submit(0, true)), recycleAfter);
      var tail := RunCons(s, recycleAfter, Submit(0, true), rest);
      events := RunCons(s, recycleAfter, Check(0), tail);
      assert ({} + {0}) - {0} == {};
    }
  }

  /** With a threshold no count is below, every client replaces the idle pool before it may
      submit; then all of them submit at once. */
  lemma {:induction false} ReplaceAll(s: State, recycleAfter: int, n: nat) returns (events: seq<Event>)
    requires Serving(s) && s.tasks == 0 && recycleAfter <= 0 && n <= |s.clients|
    requires s.pools[|s.pools| - 1].futures == []
    ensures IsRun(s, recycleAfter, events) && Disciplined(s, recycleAfter, R2.UpTo(n), events)
    ensures Serving(Run(s, recycleAfter, events)) && Run(s, recycleAfter, events).tasks == |s.clients|
    decreases |s.clients| - n
  {
    if n == |s.clients| {
      events := SubmitAll(s, recycleAfter, n);
    } else {
      var s3 := ReplaceIdle(s, recycleAfter, n);
      var rest := ReplaceAll(s3, recycleAfter, n + 1);
      events := ReplaceThen(s, recycleAfter, n, rest);
    }
  }

  /** One client passes the threshold check, drains nothing and replaces the idle pool. */
  lemma ReplaceIdle(s: State, recycleAfter: int, c: nat) returns (s': State)
    requires Serving(s) && s.tasks == 0 && recycleAfter <= 0 && c < |s.clients|
    requires s.pools[|s.pools| - 1].futures == []
    ensures Enabled(s, Check(c))
    ensures var s1 := Next(s, recycleAfter, Check(c));
            && Enabled(s1, ReplaceBegin(c))
            && var s2 := Next(s1, recycleAfter, ReplaceBegin(c));
               Enabled(s2, ReplaceEnd(c)) && s' == Next(s2, recycleAfter, ReplaceEnd(c))
    ensures Serving(s') && s'.tasks == 0 && s'.clients == s.clients && s'.pools[|s'.pools| - 1].futures == []
  {
    var s1 := Next(s, recycleAfter, Check(c));
    var s2 := Next(s1, recycleAfter, ReplaceBegin(c));
    s' := Next(s2, recycleAfter, ReplaceEnd(c));
    assert s'.clients == s.clients;
  }

  lemma ReplaceThen(s: State, recycleAfter: int, c: nat, rest: seq<Event>) returns (events: seq<Event>)
    requires Enabled(s, Check(c)) && s.tasks >= recycleAfter
    requires var s1 := Next(s, recycleAfter, Check(c));
             && Enabled(s1, ReplaceBegin(c))
             && var s2 := Next(s1, recycleAfter, ReplaceBegin(c));
                && Enabled(s2, ReplaceEnd(c))
                && var s3 := Next(s2, recycleAfter, ReplaceEnd(c));
                   IsRun(s3, recycleAfter, rest) && Disciplined(s3, recycleAfter, R2.UpTo(c + 1), rest)
    ensures events == [Check(c), ReplaceBegin(c), ReplaceEnd(c)] + rest
    ensures IsRun(s, recycleAfter, events) && Disciplined(s, recycleAfter, R2.UpTo(c), events)
    ensures var s1 := Next(s, recycleAfter, Check(c));
            var s3 := Next(Next(s1, recycleAfter, ReplaceBegin(c)), recycleAfter, ReplaceEnd(c));
            Run(s, recycleAfter, events) == Run(s3, recycleAfter, rest)
  {
    hide Enabled, Next;
    var s1 := Next(s, recycleAfter, Check(c));
    var s2 := Next(s1, recycleAfter, ReplaceBegin(c));
    var armed := R2.UpTo(c);
    assert armed + {c} == R2.UpTo(c + 1) && armed - {c} == armed;
    events := ArmedCons(s2, recycleAfter, armed, ReplaceEnd(c), rest);
    events := ArmedCons(s1, recycleAfter, armed, ReplaceBegin(c), events);
    events := ArmedCons(s, recycleAfter, armed, Check(c), events);
  }

  /** Prefixing a disciplined run with one step that is not a submission. */
  lemma ArmedCons(s: State, recycleAfter: int, armed: set<nat>, e: Event, rest: seq<Event>) returns (events: seq<Event>)
    requires Enabled(s, e) && !e.Submit? && IsRun(Next(s, recycleAfter, e), recycleAfter, rest)
    requires Disciplined(Next(s, recycleAfter, e), recycleAfter, Arm(s, recycleAfter, armed, e), rest)
    ensures events == [e] + rest && IsRun(s, recycleAfter, events) && Disciplined(s, recycleAfter, armed, events)
    ensures Run(s, recycleAfter, events) == Run(Next(s, recycleAfter, e), recycleAfter, rest)
  {
    hide Enabled, Next, Arm;
    events := RunCons(s, recycleAfter, e, rest);
    assert events[1..] == rest;
  }

  /** The bound is reached by some disciplined run, whatever the threshold. */
  lemma PoolTaskBoundIsTight(k: nat, recycleAfter: int) returns (events: seq<Event>)
    requires k >= 1
    ensures IsRun(Initial(k), recycleAfter, events) && Disciplined(Initial(k), recycleAfter, {}, events)
    ensures var s := Run(Initial(k), recycleAfter, events);
            s.pools != [] && s.pools[|s.pools| - 1].attempts == R2.Cap(recycleAfter, k)
  {
    var s := Next(Initial(k), recycleAfter, Enter);
    if recycleAfter >= 1 {
      events := SoloRounds(s, recycleAfter);
    } else {
      assert R2.UpTo(0) == {};
      events := ReplaceAll(s, recycleAfter, 0);
    }
    events := RunCons(Initial(k), recycleAfter, Enter, events);
  }

  // ---------------------------------------------------------------- the class

  /** The object itself, one method per stretch of code between two blocking points. */
  class RecyclingPool {
    const recycleAfter: int
    var tasks: nat
    var pool: Option<nat>       // index into pools
    var pools: seq<Pool>        // the executors created so far
    var lock: Lock
    var clients: seq<Mode>

    ghost function View(): State reads this {
      State(pool, tasks, pools, lock, clients)
    }

    constructor (recycleAfter: int, k: nat)
      ensures View() == Initial(k) && this.recycleAfter == recycleAfter
    {
      this.recycleAfter := recycleAfter;
      tasks, pool, pools, lock := 0, None, [], Free;
      clients := seq(k, _ => Outside);
    }

    method Enter() returns (raised: bool)
      requires Inv(View()) && Enabled(View(), Event.Enter)
      modifies this
      ensures raised == old(pool).Some?
      ensures View() == Next(old(View()), recycleAfter, Event.Enter) && Inv(View())
    {
      StepKeepsInv(View(), recycleAfter, Event.Enter);
      if pool.Some? {
        return true;
      }
      pool := Some(|pools|);
      pools := pools + [Pool(0, [], Open)];
      raised := false;
    }

    method Submit(ghost client: nat, accepted: bool) returns (raised: bool)
      requires Inv(View()) && Enabled(View(), Event.Submit(client, accepted))
      modifies this
      ensures raised == (old(pool).None? || !accepted)
      ensures View() == Next(old(View()), recycleAfter, Event.Submit(client, accepted)) && Inv(View())
    {
      StepKeepsInv(View(), recycleAfter, Event.Submit(client, accepted));
      if pool.None? {
        return true;
      }
      tasks := tasks + 1;
      var p := pools[pool.value];
      pools := pools[pool.value := p.(attempts := p.attempts + 1,
                                      futures := if accepted then p.futures + [false] else p.futures)];
      raised := !accepted;
    }

    /** The first locked block of recycle_if_needed: whether to go on to drain_fn. */
    method PastThreshold(client: nat) returns (recycle: bool)
      requires Inv(View()) && Enabled(View(), Check(client))
      modifies this
      ensures recycle <==> old(tasks) >= recycleAfter
      ensures View() == Next(old(View()), recycleAfter, Check(client)) && Inv(View())
    {
      StepKeepsInv(View(), recycleAfter, Check(client));
      if tasks < recycleAfter {
        return false;
      }
      clients := clients[client := Draining];
      recycle := true;
    }

    /** The second locked block up to its shutdown(wait=True). */
    method BeginReplace(client: nat) returns (raised: bool)
      requires Inv(View()) && Enabled(View(), ReplaceBegin(client))
      modifies this
      ensures raised == old(pool).None?
      ensures View() == Next(old(View()), recycleAfter, ReplaceBegin(client)) && Inv(View())
    {
      StepKeepsInv(View(), recycleAfter, ReplaceBegin(client));
      raised := pool.None?;
      clients := clients[client := if raised then Outside else Replacing];
      if !raised {
        lock := HeldByRecycle(client);
        pools := pools[pool.value := pools[pool.value].(stage := Closing)];
      }
    }

    /** The rest of it, once every task of the old pool is done. */
    method EndReplace(client: nat)
      requires Inv(View()) && Enabled(View(), ReplaceEnd(client))
      modifies this
      ensures View() == Next(old(View()), recycleAfter, ReplaceEnd(client)) && Inv(View())
    {
      StepKeepsInv(View(), recycleAfter, ReplaceEnd(client));
      pools := pools[pool.value := pools[pool.value].(stage := Shut)] + [Pool(0, [], Open)];
      pool := Some(|pools| - 1);
      tasks := 0;
      clients := clients[client := Outside];
      lock := Free;
    }

    method BeginExit()
      requires Inv(View()) && Enabled(View(), ExitBegin)
      modifies this
      ensures View() == Next(old(View()), recycleAfter, ExitBegin) && Inv(View())
    {
      StepKeepsInv(View(), recycleAfter, ExitBegin);
      if pool.Some? {
        lock := HeldByExit;
        pools := pools[pool.value := pools[pool.value].(stage := Closing)];
      }
    }

    method EndExit()
      requires Inv(View()) && Enabled(View(), ExitEnd)
      modifies this
      ensures View() == Next(old(View()), recycleAfter, ExitEnd) && Inv(View())
    {
      StepKeepsInv(View(), recycleAfter, ExitEnd);
      pools := pools[pool.value := pools[pool.value].(stage := Shut)];
      pool := None;
      lock := Free;
    }
  }
}
