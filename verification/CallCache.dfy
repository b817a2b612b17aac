/** versatile.py's _call_with_cache: look up under the lock, compute outside it, fill under
    the lock again, keyed by the hash of the arguments alone. */
module CallCache {
  import opened Options

  /** A call in progress.  A callable may raise, which is the outcome None. */
  datatype Phase<R> = Checking | Computing | Computed(result: R) | Returned(outcome: Option<R>)

  datatype Call<A, R> = Call(arg: A, phase: Phase<R>)

  datatype State<A, R> = State(cache: map<int, R>, calls: seq<Call<A, R>>)

  datatype Event<A> = Start(arg: A) | Check(call: nat) | Compute(call: nat) | Fill(call: nat)

  function Initial<A, R>(): State<A, R> { State(map[], []) }

  predicate Enabled<A, R>(s: State<A, R>, e: Event<A>) {
    match e
    case Start(_) => true
    case Check(c) => c < |s.calls| && s.calls[c].phase.Checking?
    case Compute(c) => c < |s.calls| && s.calls[c].phase.Computing?
    case Fill(c) => c < |s.calls| && s.calls[c].phase.Computed?
  }

  function WithPhase<A, R>(s: State<A, R>, c: nat, phase: Phase<R>): State<A, R>
    requires c < |s.calls|
  {
    s.(calls := s.calls[c := s.calls[c].(phase := phase)])
  }

  function Next<A, R>(s: State<A, R>, f: A -> Option<R>, hash: A -> int, e: Event<A>): State<A, R>
    requires Enabled(s, e)
  {
    match e
    case Start(a) => s.(calls := s.calls + [Call(a, Checking)])
    case Check(c) =>
      var h := hash(s.calls[c].arg);
      WithPhase(s, c, if h in s.cache then Returned(Some(s.cache[h])) else Computing)
    case Compute(c) =>
      var r := f(s.calls[c].arg);
      WithPhase(s, c, if r.Some? then Computed(r.value) else Returned(None))
    case Fill(c) =>
      var r := s.calls[c].phase.result;
      WithPhase(s, c, Returned(Some(r))).(cache := s.cache[hash(s.calls[c].arg) := r])
  }

  predicate IsRun<A, R>(s: State<A, R>, f: A -> Option<R>, hash: A -> int, events: seq<Event<A>>)
    decreases |events|
  {
    events == [] || (Enabled(s, events[0]) && IsRun(Next(s, f, hash, events[0]), f, hash, events[1..]))
  }

  function Run<A, R>(s: State<A, R>, f: A -> Option<R>, hash: A -> int, events: seq<Event<A>>): State<A, R>
    requires IsRun(s, f, hash, events)
    decreases |events|
  {
    if events == [] then s else Run(Next(s, f, hash, events[0]), f, hash, events[1..])
  }

  predicate Uses<A(==)>(events: seq<Event<A>>, used: set<A>) {
    forall i :: 0 <= i < |events| && events[i].Start? ==> events[i].arg in used
  }

  /** No two used arguments collide with different results. */
  ghost predicate CollisionFree<A, R>(f: A -> Option<R>, hash: A -> int, used: set<A>) {
    forall a, b :: a in used && b in used && hash(a) == hash(b) ==> f(a) == f(b)
  }

  ghost predicate AllCorrect<A, R>(s: State<A, R>, f: A -> Option<R>) {
    forall c :: 0 <= c < |s.calls| && s.calls[c].phase.Returned? ==> s.calls[c].phase.outcome == f(s.calls[c].arg)
  }

  // ------------------------------------------------------------ sufficiency

  ghost predicate CallOk<A, R>(c: Call<A, R>, f: A -> Option<R>, used: set<A>) {
    && c.arg in used
    && (c.phase.Computed? ==> f(c.arg) == Some(c.phase.result))
    && (c.phase.Returned? ==> f(c.arg) == c.phase.outcome)
  }

  ghost predicate Inv<A, R>(s: State<A, R>, f: A -> Option<R>, hash: A -> int, used: set<A>) {
    && (forall c :: 0 <= c < |s.calls| ==> CallOk(s.calls[c], f, used))
    && (forall a :: a in used && hash(a) in s.cache ==> f(a) == Some(s.cache[hash(a)]))
  }

  /** Under collision-freedom every step keeps all results right, and a filled entry never
      changes its value again. */
  lemma StepKeepsInv<A, R>(s: State<A, R>, f: A -> Option<R>, hash: A -> int, used: set<A>, e: Event<A>)
    requires CollisionFree(f, hash, used) && Inv(s, f, hash, used) && Enabled(s, e)
    requires e.Start? ==> e.arg in used
    ensures Inv(Next(s, f, hash, e), f, hash, used)
    ensures forall h :: h in s.cache ==> h in Next(s, f, hash, e).cache && Next(s, f, hash, e).cache[h] == s.cache[h]
  {
    var s' := Next(s, f, hash, e);
    if !e.Start? { assert CallOk(s.calls[e.call], f, used); }
    forall c | 0 <= c < |s'.calls| ensures CallOk(s'.calls[c], f, used) {
      assert c < |s.calls| ==> CallOk(s.calls[c], f, used);
    }
  }

  /** Only a fill writes, and it writes that call's own result, over whatever was there. */
  lemma FillsWriteOwnResult<A, R>(s: State<A, R>, f: A -> Option<R>, hash: A -> int, e: Event<A>)
    requires Enabled(s, e)
    ensures var s' := Next(s, f, hash, e);
            if e.Fill? then
              s'.cache == s.cache[hash(s.calls[e.call].arg) := s.calls[e.call].phase.result]
            else
              s'.cache == s.cache
  {
  }

  lemma {:induction false} RunKeepsInv<A, R>(s: State<A, R>, f: A -> Option<R>, hash: A -> int, used: set<A>,
                                             events: seq<Event<A>>)
    requires CollisionFree(f, hash, used) && Inv(s, f, hash, used) && IsRun(s, f, hash, events) && Uses(events, used)
    ensures Inv(Run(s, f, hash, events), f, hash, used)
    decreases |events|
  {
    if events != [] {
      StepKeepsInv(s, f, hash, used, events[0]);
      RunKeepsInv(Next(s, f, hash, events[0]), f, hash, used, events[1..]);
    }
  }

  // -------------------------------------------------------------- necessity

  lemma RunCons<A, R>(s: State<A, R>, f: A -> Option<R>, hash: A -> int, e: Event<A>, rest: seq<Event<A>>)
      returns (events: seq<Event<A>>)
    requires Enabled(s, e) && IsRun(Next(s, f, hash, e), f, hash, rest)
    ensures events == [e] + rest && IsRun(s, f, hash, events)
    ensures Run(s, f, hash, events) == Run(Next(s, f, hash, e), f, hash, rest)
  {
    events := [e] + rest;
    assert events[1..] == rest;
  }

  /** Call a, let it fill the cache, then call b: a collision hands b the result of a. */
  lemma CollisionGoesWrong<A, R>(f: A -> Option<R>, hash: A -> int, a: A, b: A) returns (events: seq<Event<A>>)
    requires hash(a) == hash(b) && f(a).Some? && f(a) != f(b)
    ensures events == [Start(a), Check(0), Compute(0), Fill(0), Start(b), Check(1)]
    ensures IsRun(Initial<A, R>(), f, hash, events) && !AllCorrect(Run(Initial<A, R>(), f, hash, events), f)
  {
    var s0 := Initial<A, R>();
    var s1 := Next(s0, f, hash, Start(a));
    var s2 := Next(s1, f, hash, Check(0));
    var s3 := Next(s2, f, hash, Compute(0));
    var s4 := Next(s3, f, hash, Fill(0));
    var s5 := Next(s4, f, hash, Start(b));
    var s6 := Next(s5, f, hash, Check(1));
    assert s6.calls[1] == Call(b, Returned(f(a)));
    events := RunCons(s5, f, hash, Check(1), []);
    events := RunCons(s4, f, hash, Start(b), events);
    events := RunCons(s3, f, hash, Fill(0), events);
    events := RunCons(s2, f, hash, Compute(0), events);
    events := RunCons(s1, f, hash, Check(0), events);
    events := RunCons(s0, f, hash, Start(a), events);
  }

  /** Caching is transparent in every interleaving exactly when no two used arguments share a
      hash and differ in their result. */
  lemma TransparentIffCollisionFree<A(!new), R(!new)>(f: A -> Option<R>, hash: A -> int, used: set<A>)
    ensures CollisionFree(f, hash, used) <==>
            forall events: seq<Event<A>> :: Uses(events, used) && IsRun(Initial<A, R>(), f, hash, events) ==>
              AllCorrect(Run(Initial<A, R>(), f, hash, events), f)
  {
    if CollisionFree(f, hash, used) {
      forall events: seq<Event<A>> | Uses(events, used) && IsRun(Initial<A, R>(), f, hash, events)
        ensures AllCorrect(Run(Initial<A, R>(), f, hash, events), f)
      {
        RunKeepsInv(Initial<A, R>(), f, hash, used, events);
        var s := Run(Initial<A, R>(), f, hash, events);
        assert forall c :: 0 <= c < |s.calls| ==> CallOk(s.calls[c], f, used);
      }
    } else {
      var a, b :| a in used && b in used && hash(a) == hash(b) && f(a) != f(b);
      if f(a).Some? {
        var events := CollisionGoesWrong(f, hash, a, b);
        assert Uses(events, used);
      } else {
        var events := CollisionGoesWrong(f, hash, b, a);
        assert Uses(events, used);
      }
    }
  }

  // ------------------------------------------------------------- sequential

  /** One cache store and the arguments its function was evaluated on. */
  class CacheStorage<A(==), R> {
    var entries: map<int, R>
    ghost var evaluated: seq<A>

    constructor ()
      ensures entries == map[] && evaluated == []
    {
      entries, evaluated := map[], [];
    }

    /** Every evaluation that returned is remembered under its hash, so none is repeated. */
    ghost predicate Valid(f: A -> Option<R>, hash: A -> int) reads this {
      && (forall h :: h in entries <==>
          exists i :: 0 <= i < |evaluated| && f(evaluated[i]).Some? && hash(evaluated[i]) == h)
      && (forall i, j :: 0 <= i < j < |evaluated| && f(evaluated[i]).Some? ==> hash(evaluated[i]) != hash(evaluated[j]))
      && (forall i :: 0 <= i < |evaluated| && f(evaluated[i]).Some? ==>
          entries[hash(evaluated[i])] == f(evaluated[i]).value)
    }

    /** What a hit returns, if nothing collides. */
    lemma HitIsRight(f: A -> Option<R>, hash: A -> int, used: set<A>, arg: A)
      requires Valid(f, hash) && hash(arg) in entries
      requires CollisionFree(f, hash, used) && arg in used && forall a :: a in evaluated ==> a in used
      ensures f(arg) == Some(entries[hash(arg)])
    {
      var j :| 0 <= j < |evaluated| && f(evaluated[j]).Some? && hash(evaluated[j]) == hash(arg);
      assert evaluated[j] in evaluated;
    }

    lemma EvaluatedOnce(f: A -> Option<R>, hash: A -> int)
      requires Valid(f, hash)
      ensures forall i, j :: 0 <= i < j < |evaluated| && f(evaluated[i]).Some? ==> evaluated[i] != evaluated[j]
    {
    }

    /** _call_with_cache, uninterrupted. */
    method CallWithCache(f: A -> Option<R>, hash: A -> int, arg: A) returns (outcome: Option<R>)
      requires Valid(f, hash)
      modifies this
      ensures Valid(f, hash)
      ensures hash(arg) in old(entries) ==>
                outcome == Some(old(entries)[hash(arg)]) && entries == old(entries) && evaluated == old(evaluated)
      ensures hash(arg) !in old(entries) ==> outcome == f(arg) && evaluated == old(evaluated) + [arg]
      ensures hash(arg) !in old(entries) ==>
                entries == if f(arg).Some? then old(entries)[hash(arg) := f(arg).value] else old(entries)
    {
      var h := hash(arg);
      if h in entries {
        return Some(entries[h]);
      }
      outcome := f(arg);
      evaluated := evaluated + [arg];
      if outcome.Some? {
        entries := entries[h := outcome.value];
        assert evaluated[|evaluated| - 1] == arg;
      }
      forall g
        ensures g in entries <==>
                  exists i :: 0 <= i < |evaluated| && f(evaluated[i]).Some? && hash(evaluated[i]) == g
      {
        if g in old(entries) {
          var i :| 0 <= i < |old(evaluated)| && f(old(evaluated)[i]).Some? && hash(old(evaluated)[i]) == g;
          assert evaluated[i] == old(evaluated)[i];
        }
      }
    }
  }

  /** An argument whose evaluation raises has been evaluated as often as it was called. */
  ghost predicate RaisedEachTime<A, R>(f: A -> Option<R>, evaluated: seq<A>, called: seq<A>) {
    forall a :: a in evaluated + called && f(a).None? ==> multiset(evaluated)[a] == multiset(called)[a]
  }

  /** One more call, evaluated or, if it cannot raise, answered from the store. */
  lemma RaisedAgain<A, R>(f: A -> Option<R>, evaluated: seq<A>, called: seq<A>, arg: A)
    requires RaisedEachTime(f, evaluated, called)
    ensures RaisedEachTime(f, evaluated + [arg], called + [arg])
    ensures f(arg).Some? ==> RaisedEachTime(f, evaluated, called + [arg])
  {
  }

  method NewStorage<A(==), R>(ghost f: A -> Option<R>, ghost hash: A -> int) returns (store: CacheStorage<A, R>)
    ensures fresh(store) && store.Valid(f, hash) && store.entries == map[] && store.evaluated == []
  {
    store := new CacheStorage<A, R>();
  }

  /** One call of a sequence, after those called before. */
  method CallNext<A(==), R>(store: CacheStorage<A, R>, f: A -> Option<R>, hash: A -> int, arg: A,
                            ghost used: set<A>, ghost called: seq<A>)
    returns (outcome: Option<R>)
    requires store.Valid(f, hash) && arg in used && forall a :: a in store.evaluated ==> a in used
    modifies store
    ensures store.Valid(f, hash) && forall a :: a in store.evaluated ==> a in used
    ensures CollisionFree(f, hash, used) ==> outcome == f(arg)
    ensures CollisionFree(f, hash, used) && RaisedEachTime(f, old(store.evaluated), called) ==>
              RaisedEachTime(f, store.evaluated, called + [arg])
  {
    hide RaisedEachTime, CollisionFree, CacheStorage.Valid;
    ghost var before := store.evaluated;
    if hash(arg) in store.entries && CollisionFree(f, hash, used) {
      store.HitIsRight(f, hash, used, arg);
    }
    outcome := store.CallWithCache(f, hash, arg);
    if RaisedEachTime(f, before, called) {
      RaisedAgain(f, before, called, arg);
    }
  }

  /** Any sequence of calls in a row: right results if nothing collides, and no argument whose
      evaluation returned is evaluated again.  One that raised is, on every call. */
  method CallInSequence<A(==), R>(f: A -> Option<R>, hash: A -> int, args: seq<A>)
    returns (outcomes: seq<Option<R>>, ghost evaluated: seq<A>)
    ensures |outcomes| == |args|
    ensures CollisionFree(f, hash, set a | a in args) ==> forall i :: 0 <= i < |args| ==> outcomes[i] == f(args[i])
    ensures forall i, j :: 0 <= i < j < |evaluated| && f(evaluated[i]).Some? ==> evaluated[i] != evaluated[j]
    ensures forall a :: a in evaluated ==> a in args
    ensures CollisionFree(f, hash, set a | a in args) ==> RaisedEachTime(f, evaluated, args)
  {
    assert RaisedEachTime(f, [], []);
    hide RaisedEachTime, CollisionFree, CacheStorage.Valid;
    ghost var used := set a | a in args;
    ghost var free := CollisionFree(f, hash, used);
    assert forall i :: 0 <= i < |args| ==> args[i] in used;
    var store := NewStorage(f, hash);
    outcomes := [];
    assert args[..0] == [];
    for i := 0 to |args|
      invariant fresh(store) && store.Valid(f, hash) && |outcomes| == i
      invariant forall a :: a in store.evaluated ==> a in used
      invariant free ==> RaisedEachTime(f, store.evaluated, args[..i])
      invariant free ==> forall j :: 0 <= j < i ==> outcomes[j] == f(args[j])
    {
      assert args[..i + 1] == args[..i] + [args[i]];
      var outcome := CallNext(store, f, hash, args[i], used, args[..i]);
      outcomes := outcomes + [outcome];
    }
    evaluated := store.evaluated;
    store.EvaluatedOnce(f, hash);
    assert args[..|args|] == args;
  }

  // ------------------------------------------------------ wrapped callables

  /** A PolymorphicCallable: with a store it answers through the cache, without one directly. */
  datatype PolymorphicCallable<!A(==), R> =
    PolymorphicCallable(callable: A -> Option<R>, signature: string, store: CacheStorage?<A, R>)

  /** _global_cache: one store per signature, created on first use. */
  class GlobalCache<A(==), R> {
    var stores: map<string, CacheStorage<A, R>>
    ghost const meaning: string -> A -> Option<R>
    ghost const hash: A -> int

    constructor (ghost meaning: string -> A -> Option<R>, ghost hash: A -> int)
      ensures Valid() && stores == map[] && this.meaning == meaning && this.hash == hash
    {
      stores, this.meaning, this.hash := map[], meaning, hash;
    }

    /** Signatures never share a store, and each store remembers its signature's function. */
    ghost predicate Valid() reads this, stores.Values {
      && (forall s, t :: s in stores && t in stores && s != t ==> stores[s] != stores[t])
      && (forall s :: s in stores ==> stores[s].Valid(meaning(s), hash))
    }

    /** with_global_cache: None is the assertion of a cache policy that is already set. */
    method WithGlobalCache(c: PolymorphicCallable<A, R>) returns (r: Option<PolymorphicCallable<A, R>>)
      requires Valid()
      modifies this
      ensures Valid()
      ensures r.None? <==> c.store != null
      ensures r.None? || c.signature in old(stores) ==> stores == old(stores)
      ensures r.Some? ==> r.value.callable == c.callable && r.value.signature == c.signature
      ensures r.Some? ==> c.signature in stores && r.value.store == stores[c.signature]
      ensures r.Some? && c.signature !in old(stores) ==>
                && fresh(stores[c.signature]) && stores[c.signature].entries == map[]
                && stores == old(stores)[c.signature := stores[c.signature]]
    {
      if c.store != null { return None; }
      if c.signature !in stores {
        var store := new CacheStorage<A, R>();
        stores := stores[c.signature := store];
      }
      r := Some(c.(store := stores[c.signature]));
    }

    /** __call__ of a callable that is uncached or cached here: with one function per signature
        and no collision with the arguments its store has seen, the uncached result. */
    method Call(c: PolymorphicCallable<A, R>, hashOf: A -> int, arg: A) returns (outcome: Option<R>)
      requires Valid() && hashOf == hash
      requires c.store != null ==>
                c.signature in stores && stores[c.signature] == c.store && meaning(c.signature) == c.callable
      modifies c.store
      ensures Valid()
      ensures c.store == null ==> outcome == c.callable(arg)
      ensures c.store != null && hash(arg) in old(c.store.entries) ==>
                && outcome == Some(old(c.store.entries)[hash(arg)])
                && c.store.evaluated == old(c.store.evaluated) && c.store.entries == old(c.store.entries)
      ensures c.store != null && hash(arg) !in old(c.store.entries) ==>
                && outcome == c.callable(arg) && c.store.evaluated == old(c.store.evaluated) + [arg]
                && c.store.entries == if outcome.Some? then old(c.store.entries)[hash(arg) := outcome.value]
                                      else old(c.store.entries)
      ensures c.store != null && CollisionFree(c.callable, hash, (set a | a in old(c.store.evaluated)) + {arg}) ==>
                outcome == c.callable(arg)
      ensures forall s :: s in stores && s != c.signature ==> stores[s].entries == old(stores[s].entries)
    {
      if c.store != null {
        ghost var before := c.store.evaluated;
        if hashOf(arg) in c.store.entries {
          ghost var j :| 0 <= j < |before| && c.callable(before[j]).Some? && hash(before[j]) == hash(arg);
          assert before[j] in before;
        }
        outcome := c.store.CallWithCache(c.callable, hashOf, arg);
      } else {
        outcome := c.callable(arg);
      }
    }
  }
}
