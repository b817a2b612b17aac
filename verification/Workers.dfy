/** workers.py: wait_pending and run_in_workers.  The environment decides which futures a
    cf.wait call reports; it may time out empty-handed, but only finitely often. */
module Workers {
  import opened Options

  type Future = nat

  /** How a call ends: normally, with the exception of a failed future, by spinning forever on
      an empty wait set, or refused by the executor. */
  datatype Status = Returned | Raised(future: Future) | Spins | NoWorkers

  /** Waiting for the first completion among some futures: at least one is reported done, or the
      wait times out. */
  method Wait(pending: set<Future>, timeouts: nat) returns (done: set<Future>, rest: set<Future>, left: nat)
    requires pending != {}
    ensures done + rest == pending && done !! rest
    ensures left <= timeouts && (done == {} ==> left < timeouts)
    ensures |rest| + left < |pending| + timeouts
  {
    left := timeouts;
    done := {};
    if timeouts > 0 {
      if * {
        left := left - 1;
        rest := pending;
        return;
      }
    }
    var f :| f in pending;
    done := {f};
    var others :| others <= pending;
    done := done + others;
    rest := pending - done;
    assert pending == done + rest && f in done;
    assert |pending| == |done| + |rest|;
  }

  /** wait_pending: returns once at most target futures are pending; what it removed is done,
      and none of it has failed unless exceptions are ignored. */
  method WaitPending(pending0: set<Future>, target: int, raiseOnException: bool, failing: set<Future>, timeouts: nat)
    returns (pending: set<Future>, status: Status, left: nat, ghost done: set<Future>, ghost waits: nat)
    ensures left <= timeouts && pending <= pending0 && done == pending0 - pending
    ensures status == Returned ==> |pending| <= target && (raiseOnException ==> done !! failing)
    ensures status.Raised? ==> raiseOnException && status.future in failing && status.future in done
    ensures status == Returned && pending != pending0 ==> |pending0| > target
    ensures !status.NoWorkers?
    // the loop ends under the finiteness assumption exactly when the target can be met
    ensures status == Spins ==> target < 0 && pending == {}
    ensures target < 0 ==> status != Returned
    // it waits only for as long as too many are pending
    ensures |pending0| <= target ==> waits == 0 && pending == pending0 && status == Returned
    ensures |pending0| > target && pending0 != {} ==> waits > 0
  {
    pending, left, waits := pending0, timeouts, 0;
    while |pending| > target
      invariant left <= timeouts && pending <= pending0
      invariant raiseOnException ==> pending0 - pending !! failing
      invariant pending != pending0 ==> |pending0| > target
      invariant |pending0| <= target ==> waits == 0
      invariant waits == 0 ==> pending == pending0
      decreases |pending| + left
    {
      if pending == {} {
        return pending, Spins, left, pending0, waits;
      }
      var completed;
      completed, pending, left := Wait(pending, left);
      waits := waits + 1;
      if raiseOnException && completed * failing != {} {
        var f :| f in completed && f in failing;
        return pending, Raised(f), left, pending0 - pending, waits;
      }
    }
    status, done := Returned, pending0 - pending;
  }

  /** The futures the task generator yields, in order, without the None barriers. */
  function Yielded(produced: seq<Option<Future>>): seq<Future> {
    if produced == [] then []
    else
      var last := produced[|produced| - 1];
      if last.Some? then Yielded(produced[..|produced| - 1]) + [last.value] else Yielded(produced[..|produced| - 1])
  }

  /** The producer's view: what was done when it was resumed after each of its yields. */
  ghost predicate BarriersHold(produced: seq<Option<Future>>, resumed: seq<set<Future>>) {
    && |resumed| <= |produced|
    && forall i :: 0 <= i < |resumed| && produced[i].None? ==>
         forall f :: f in Yielded(produced[..i]) ==> f in resumed[i]
  }

  /** Resuming the producer once more, with everything before a barrier done. */
  lemma BarriersStep(produced: seq<Option<Future>>, resumed: seq<set<Future>>, done: set<Future>)
    requires BarriersHold(produced, resumed) && |resumed| < |produced|
    requires produced[|resumed|].None? ==> forall f :: f in Yielded(produced[..|resumed|]) ==> f in done
    ensures BarriersHold(produced, resumed + [done])
  {
  }

  /** run_in_workers.  peak is the largest number of pending futures ever held; resumed[i] is
      the set of futures known to be done when the generator was resumed after item i. */
  method RunInWorkers(produced: seq<Option<Future>>, raiseOnException: bool, numWorker: int, queueLength: Option<int>,
                      failing: set<Future>, timeouts: nat)
    returns (allFutures: seq<Future>, status: Status, ghost done: set<Future>, ghost peak: nat,
             ghost resumed: seq<set<Future>>, ghost waits: nat)
    ensures status == NoWorkers <==> numWorker <= 0
    ensures status == Returned ==> allFutures == Yielded(produced) && |resumed| == |produced|
    ensures status == Returned ==> forall f :: f in allFutures ==> f in done && (raiseOnException ==> f !in failing)
    ensures status.Raised? ==> raiseOnException && status.future in failing && status.future in Yielded(produced)
    ensures BarriersHold(produced, resumed)
    // an absent or zero length stands for twice the workers
    ensures numWorker > 0 && (queueLength.None? || queueLength.value == 0) ==> peak <= 2 * numWorker + 1
    ensures queueLength.Some? && queueLength.value > 0 ==> peak <= queueLength.value + 1
    ensures queueLength.Some? && queueLength.value < 0 ==> peak <= 1
    // and without barriers, futures up to that length are never waited for before the last yield
    ensures None !in produced && |Yielded(produced)| <= 2 * numWorker ==>
              queueLength.None? || queueLength.value == 0 ==> waits == 0
    ensures None !in produced && queueLength.Some? && queueLength.value > 0 ==>
              |Yielded(produced)| <= queueLength.value ==> waits == 0
    ensures status == Spins ==> QueueLength(numWorker, queueLength) < 0
    ensures status == Spins ==> Yielded(produced) != []
    ensures numWorker > 0 && QueueLength(numWorker, queueLength) < 0 ==>
              (status == Returned <==> Yielded(produced) == [])
  {
    allFutures, done, peak, resumed, waits := [], {}, 0, [], 0;
    assert Yielded(produced[..0]) == [] && BarriersHold(produced, resumed);
    hide Yielded, BarriersHold;
    if numWorker <= 0 {
      return allFutures, NoWorkers, done, peak, resumed, waits;
    }
    var queue := QueueLength(numWorker, queueLength);
    var pending: set<Future> := {};
    var left := timeouts;
    for i := 0 to |produced|
      invariant allFutures == Yielded(produced[..i]) && |resumed| == i
      invariant forall f :: f in allFutures <==> f in pending || f in done
      invariant raiseOnException ==> done !! failing
      invariant BarriersHold(produced, resumed)
      invariant queue >= 0 ==> |pending| <= queue
      invariant queue < 0 ==> allFutures == [] && pending == {}
      invariant peak <= (if queue >= 0 then queue else 0) + 1
      invariant |pending| <= |allFutures| <= |Yielded(produced)|
      invariant None !in produced && |Yielded(produced)| <= queue ==> waits == 0
    {
      YieldedStep(produced, i);
      YieldedPrefix(produced, i);
      ghost var newlyDone, waited;
      if produced[i].None? {
        pending, status, left, newlyDone, waited := WaitPending(pending, 0, raiseOnException, failing, left);
      } else {
        allFutures := allFutures + [produced[i].value];
        AddOne(pending, produced[i].value);
        pending := pending + {produced[i].value};
        peak := if |pending| > peak then |pending| else peak;
        pending, status, left, newlyDone, waited := WaitPending(pending, queue, raiseOnException, failing, left);
      }
      done, waits := done + newlyDone, waits + waited;
      if status != Returned {
        return;
      }
      BarriersStep(produced, resumed, done);
      resumed := resumed + [done];
    }
    assert produced[..|produced|] == produced;
    ghost var newlyDone, drained;
    pending, status, left, newlyDone, drained := WaitPending(pending, 0, raiseOnException, failing, left);
    done := done + newlyDone;
  }

  /** The default number of workers: a third of the processors, rounded down. */
  function DefaultNumWorker(cpus: nat): (n: nat)
    ensures 3 * n <= cpus < 3 * (n + 1)
    ensures n == 0 <==> cpus <= 2
  {
    cpus / 3
  }

  /** run_in_workers with its defaults: on at most two processors the executor refuses every
      call, on more it never does and never spins. */
  method RunWithDefaults(produced: seq<Option<Future>>, cpus: nat, failing: set<Future>, timeouts: nat)
    returns (allFutures: seq<Future>, status: Status, ghost peak: nat)
    ensures status == NoWorkers <==> cpus <= 2
    ensures cpus > 2 ==> peak <= 2 * (cpus / 3) + 1
    ensures status == Returned ==> allFutures == Yielded(produced) && forall f :: f in allFutures ==> f !in failing
    ensures status.Raised? ==> status.future in failing && status.future in Yielded(produced)
    ensures status != Spins
  {
    ghost var done, resumed, waits;
    allFutures, status, done, peak, resumed, waits :=
      RunInWorkers(produced, true, DefaultNumWorker(cpus), None, failing, timeouts);
  }

  /** The bound on pending futures: an absent or zero length stands for twice the workers. */
  function QueueLength(numWorker: int, queueLength: Option<int>): int {
    if queueLength.None? || queueLength.value == 0 then 2 * numWorker else queueLength.value
  }

  lemma AddOne(s: set<Future>, f: Future)
    ensures |s| <= |s + {f}| <= |s| + 1
  {
    if f in s {
      assert s + {f} == s;
    }
  }

  lemma YieldedStep(produced: seq<Option<Future>>, i: nat)
    requires i < |produced|
    ensures Yielded(produced[..i + 1]) ==
            if produced[i].Some? then Yielded(produced[..i]) + [produced[i].value] else Yielded(produced[..i])
  {
    assert produced[..i + 1][..i] == produced[..i];
  }

  /** What a generator yields in two stretches, one after the other. */
  lemma {:induction false} YieldedConcat(a: seq<Option<Future>>, b: seq<Option<Future>>)
    ensures Yielded(a + b) == Yielded(a) + Yielded(b)
    ensures forall x :: Yielded([x]) == if x.Some? then [x.value] else []
    decreases |b|
  {
    forall x: Option<Future> ensures Yielded([x]) == if x.Some? then [x.value] else [] {
      assert [x][..0] == [];
    }
    if b == [] {
      assert a + b == a;
    } else {
      assert (a + b)[..|a + b| - 1] == a + b[..|b| - 1];
      YieldedConcat(a, b[..|b| - 1]);
    }
  }

  lemma {:induction false} YieldedPrefix(produced: seq<Option<Future>>, i: nat)
    requires i <= |produced|
    ensures forall f :: f in Yielded(produced[..i]) ==> f in Yielded(produced)
    ensures |Yielded(produced[..i])| <= |Yielded(produced)|
    ensures i < |produced| && produced[i].Some? ==> |Yielded(produced[..i])| < |Yielded(produced)|
    ensures i < |produced| && produced[i].Some? ==> produced[i].value in Yielded(produced)
    decreases |produced|
  {
    if i < |produced| {
      var n := |produced| - 1;
      if i < n {
        assert produced[..n][..i] == produced[..i];
        YieldedPrefix(produced[..n], i);
      }
    } else {
      assert produced[..i] == produced;
    }
  }
}
