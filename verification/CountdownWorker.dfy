/** loky_executor.py's _process_worker_countdown: one worker process, driven by whatever its
    call queue and the memory readings deliver. */
module CountdownWorker {
  import opened Options

  /** What the memory check after a task would observe: whether the check delay has passed,
      and whether the two successive readings are below the leak limit. */
  datatype Memory = Memory(delayPassed: bool, lowUsage: bool, lowAfterGc: bool)

  /** One call_queue.get: a task (with its outcome), the sentinel, a timeout (with whether the
      management lock was free), or an error (with whether reporting it failed too). */
  datatype Delivery =
    | Item(workId: nat, raises: bool, memory: Memory)
    | Sentinel
    | Timeout(lockFree: bool)
    | GetError(reportFails: bool)

  datatype Message = Result(workId: nat, failed: bool) | OwnPid | Traceback

  /** How the worker stands when the deliveries are used up or it has left. */
  datatype Outcome = InitFailed | OnSentinel | OnTimeout | OnCount | OnLeak | OnGetError | Waiting

  /** The dequeued tasks, in order. */
  function Items(ds: seq<Delivery>): seq<Delivery> {
    if ds == [] then []
    else
      var last := ds[|ds| - 1];
      if last.Item? then Items(ds[..|ds| - 1]) + [last] else Items(ds[..|ds| - 1])
  }

  /** One result message per task. */
  function Results(items: seq<Delivery>): (r: seq<Message>)
    requires forall i :: 0 <= i < |items| ==> items[i].Item?
    ensures |r| == |items|
    ensures forall i :: 0 <= i < |items| ==> r[i] == Result(items[i].workId, items[i].raises)
  {
    seq(|items|, i requires 0 <= i < |items| => Result(items[i].workId, items[i].raises))
  }

  lemma {:induction false} ItemsAreItems(ds: seq<Delivery>)
    ensures |Items(ds)| <= |ds|
    ensures forall i :: 0 <= i < |Items(ds)| ==> Items(ds)[i].Item?
  {
    if ds != [] { ItemsAreItems(ds[..|ds| - 1]); }
  }

  /** A delivery after which the loop goes round again whatever the counters say. */
  predicate Continues(d: Delivery) {
    d.Item? || (d.Timeout? && !d.lockFree)
  }

  predicate Leaky(d: Delivery) {
    d.Item? && d.memory.delayPassed && !d.memory.lowUsage && !d.memory.lowAfterGc
  }

  /** The number of tasks after which the worker retires: a limit below one acts like one. */
  function Quota(maxTasks: int): nat {
    if maxTasks >= 1 then maxTasks else 1
  }

  predicate CountReached(maxTasks: Option<int>, executed: nat) {
    maxTasks.Some? && executed >= Quota(maxTasks.value)
  }

  /** The last messages: the own pid on every clean exit, a traceback (if it can be sent at
      all) when the queue fails, nothing otherwise. */
  function Farewell(outcome: Outcome, last: Delivery): seq<Message> {
    match outcome
    case InitFailed => []
    case Waiting => []
    case OnGetError => if last.GetError? && !last.reportFails then [Traceback] else []
    case _ => [OwnPid]
  }

  /** The whole conduct of a worker that passed its initializer and has consumed some
      deliveries: what it sent and why it stands where it stands. */
  ghost predicate Conduct(ds: seq<Delivery>, maxTasks: Option<int>, usePsutil: bool, messages: seq<Message>,
                          outcome: Outcome) {
    var items := Items(ds);
    var executed := |items|;
    && outcome != InitFailed
    && (forall i :: 0 <= i < |items| ==> items[i].Item?)
    && messages == Results(items) + (if ds == [] then [] else Farewell(outcome, ds[|ds| - 1]))
    // the count is never overrun, and reaching it is the one thing no check can delay
    && (maxTasks.Some? ==> executed <= Quota(maxTasks.value))
    && (outcome == OnCount <==> CountReached(maxTasks, executed))
    // the first task only sets the memory reference; a later leaky one ends the worker
    && (usePsutil ==> forall i :: 1 <= i < executed - 1 ==> !Leaky(items[i]))
    && (outcome == OnLeak <==>
          usePsutil && executed >= 2 && Leaky(items[executed - 1]) && !CountReached(maxTasks, executed))
    // every other exit is caused by the last delivery, and none before it asked to leave
    && (forall i :: 0 <= i < |ds| - 1 ==> Continues(ds[i]))
    && (outcome == Waiting || outcome == OnCount || outcome == OnLeak ==> ds == [] || Continues(ds[|ds| - 1]))
    && (outcome == OnCount || outcome == OnLeak ==> ds != [] && ds[|ds| - 1].Item?)
    && (outcome == OnSentinel <==> ds != [] && ds[|ds| - 1].Sentinel?)
    && (outcome == OnTimeout <==> ds != [] && ds[|ds| - 1] == Timeout(true))
    && (outcome == OnGetError <==> ds != [] && ds[|ds| - 1].GetError?)
  }

  /** What one more delivery leads to, given how many tasks it makes executed. */
  function Decide(d: Delivery, executed: nat, maxTasks: Option<int>, usePsutil: bool): Outcome {
    match d
    case Sentinel => OnSentinel
    case Timeout(lockFree) => if lockFree then OnTimeout else Waiting
    case GetError(_) => OnGetError
    case Item(_, _, _) =>
      if CountReached(maxTasks, executed) then OnCount
      else if usePsutil && executed >= 2 && Leaky(d) then OnLeak
      else Waiting
  }

  /** The messages sent after one more delivery. */
  function Say(messages: seq<Message>, d: Delivery, outcome: Outcome): seq<Message> {
    if d.Item? then
      var answered := messages + [Result(d.workId, d.raises)];
      if outcome == Waiting then answered else answered + [OwnPid]
    else if d.GetError? then
      if d.reportFails then messages else messages + [Traceback]
    else
      if outcome == Waiting then messages else messages + [OwnPid]
  }

  lemma ItemsStep(ds: seq<Delivery>, d: Delivery)
    ensures Items(ds + [d]) == Items(ds) + (if d.Item? then [d] else [])
    ensures forall i :: 0 <= i < |Items(ds)| ==> Items(ds)[i].Item?
    ensures Results(Items(ds) + (if d.Item? then [d] else [])) ==
            Results(Items(ds)) + (if d.Item? then [Result(d.workId, d.raises)] else [])
  {
    assert (ds + [d])[..|ds|] == ds;
    ItemsAreItems(ds);
  }

  lemma ConductStart(maxTasks: Option<int>, usePsutil: bool)
    ensures Conduct([], maxTasks, usePsutil, [], Waiting)
  {
    assert Items([]) == [];
    assert maxTasks.Some? ==> Quota(maxTasks.value) >= 1;
  }

  /** Every delivery extends a waiting worker's conduct as Decide says. */
  lemma ConductStep(ds: seq<Delivery>, d: Delivery, maxTasks: Option<int>, usePsutil: bool, messages: seq<Message>)
    requires Conduct(ds, maxTasks, usePsutil, messages, Waiting)
    ensures var outcome := Decide(d, |Items(ds + [d])|, maxTasks, usePsutil);
            Conduct(ds + [d], maxTasks, usePsutil, Say(messages, d, outcome), outcome)
    ensures |Items(ds + [d])| == |Items(ds)| + (if d.Item? then 1 else 0)
  {
    hide Items, Results, Quota;
    ItemsStep(ds, d);
    var more := ds + [d];
    var items := Items(ds) + (if d.Item? then [d] else []);
    assert more[|more| - 1] == d;
    forall i | 0 <= i < |more| - 1 ensures Continues(more[i]) {
      assert more[i] == ds[i];
    }
    if usePsutil {
      forall i | 1 <= i < |items| - 1 ensures !Leaky(items[i]) {
        assert items[i] == Items(ds)[i];
      }
    }
  }

  /** The worker loop.  consumed is how many of the offered deliveries it took. */
  method ProcessWorkerCountdown(initOk: bool, script: seq<Delivery>, maxTasks: Option<int>, usePsutil: bool)
    returns (messages: seq<Message>, outcome: Outcome, executed: nat, consumed: nat)
    ensures consumed <= |script| && executed == |Items(script[..consumed])|
    ensures !initOk ==> messages == [] && outcome == InitFailed && consumed == 0
    ensures initOk ==> Conduct(script[..consumed], maxTasks, usePsutil, messages, outcome)
    ensures outcome == Waiting ==> consumed == |script|
  {
    hide Conduct;
    messages, executed, consumed := [], 0, 0;
    if !initOk {
      return messages, InitFailed, executed, consumed;
    }
    ConductStart(maxTasks, usePsutil);
    assert script[..0] == [];
    var haveReference := false;
    while consumed < |script|
      invariant consumed <= |script| && executed == |Items(script[..consumed])|
      invariant Conduct(script[..consumed], maxTasks, usePsutil, messages, Waiting)
      invariant usePsutil ==> (haveReference <==> executed > 0)
    {
      var d := script[consumed];
      ConductStep(script[..consumed], d, maxTasks, usePsutil, messages);
      assert script[..consumed + 1] == script[..consumed] + [d];
      consumed := consumed + 1;
      var leave := d.Sentinel?;
      if d.Timeout? {
        if !d.lockFree {
          continue;
        }
        leave := true;
      } else if d.GetError? {
        if !d.reportFails {
          messages := messages + [Traceback];
        }
        return messages, OnGetError, executed, consumed;
      }
      if leave {
        messages := messages + [OwnPid];
        return messages, if d.Sentinel? then OnSentinel else OnTimeout, executed, consumed;
      }
      messages := messages + [Result(d.workId, d.raises)];
      executed := executed + 1;
      if maxTasks.Some? && executed >= maxTasks.value {
        messages := messages + [OwnPid];
        return messages, OnCount, executed, consumed;
      }
      if usePsutil {
        if !haveReference {
          haveReference := true;
          continue;
        }
        if d.memory.delayPassed {
          if d.memory.lowUsage {
            continue;
          }
          if d.memory.lowAfterGc {
            continue;
          }
          messages := messages + [OwnPid];
          return messages, OnLeak, executed, consumed;
        }
      }
    }
    outcome := Waiting;
    assert script[..consumed] == script;
  }

  /** Read off the conduct: one result per dequeued task in dequeue order, then on every clean
      exit exactly one own-pid message and nothing after it. */
  lemma MessagesAreOrdered(ds: seq<Delivery>, maxTasks: Option<int>, usePsutil: bool, messages: seq<Message>,
                           outcome: Outcome)
    requires Conduct(ds, maxTasks, usePsutil, messages, outcome)
    ensures var n := |Items(ds)|;
            && n <= |messages| <= n + 1
            && (forall i :: 0 <= i < n ==> messages[i] == Result(Items(ds)[i].workId, Items(ds)[i].raises))
            && (outcome in {OnSentinel, OnTimeout, OnCount, OnLeak} <==> |messages| == n + 1 && messages[n] == OwnPid)
            && OwnPid !in messages[..n]
            && (outcome == Waiting ==> |messages| == n)
            && (outcome == OnGetError ==>
                  messages[n..] == if ds[|ds| - 1].reportFails then [] else [Traceback])
  {
    if ds == [] {
      assert outcome == Waiting;
    }
  }

  /** Read off the conduct: why a worker left, or stays, in the terms of its parameters.  A limit
      below one still lets one task through. */
  lemma ReasonsToLeave(ds: seq<Delivery>, maxTasks: Option<int>, usePsutil: bool, messages: seq<Message>,
                       outcome: Outcome)
    requires Conduct(ds, maxTasks, usePsutil, messages, outcome)
    ensures var n := |Items(ds)|;
            var counted := maxTasks.Some? && n >= 1 && n >= maxTasks.value;
            && (maxTasks.Some? ==> n <= if maxTasks.value >= 1 then maxTasks.value else 1)
            && (outcome == OnCount <==> counted)
            && (outcome == OnLeak <==>
                  usePsutil && n >= 2 && Items(ds)[n - 1].memory == Memory(true, false, false) && !counted)
            && (usePsutil ==> forall i :: 1 <= i < n - 1 ==> Items(ds)[i].memory != Memory(true, false, false))
    ensures outcome == OnSentinel <==> ds != [] && ds[|ds| - 1] == Sentinel
    ensures outcome == OnTimeout <==> ds != [] && ds[|ds| - 1] == Timeout(true)
    ensures outcome == OnGetError <==> ds != [] && ds[|ds| - 1].GetError?
    ensures forall i :: 0 <= i < |ds| - 1 ==> ds[i].Item? || ds[i] == Timeout(false)
  {
  }

  /** The dequeued tasks of two stretches, one after the other. */
  lemma {:induction false} ItemsConcat(a: seq<Delivery>, b: seq<Delivery>)
    ensures Items(a + b) == Items(a) + Items(b)
    decreases |b|
  {
    hide Items;
    if b == [] {
      ItemsSnoc(b, Sentinel);
      assert a + b == a;
    } else {
      var n := |b| - 1;
      ItemsConcat(a, b[..n]);
      ItemsSnoc(a + b[..n], b[n]);
      ItemsSnoc(b[..n], b[n]);
      assert a + b == a + b[..n] + [b[n]];
      assert b == b[..n] + [b[n]];
      assert Items(a) + (Items(b[..n]) + [b[n]]) == (Items(a) + Items(b[..n])) + [b[n]];
    }
  }

  lemma ItemsSnoc(ds: seq<Delivery>, d: Delivery)
    ensures Items(ds + [d]) == if d.Item? then Items(ds) + [d] else Items(ds)
    ensures ds == [] ==> Items(ds) == []
  {
    assert (ds + [d])[..|ds|] == ds;
  }
}
