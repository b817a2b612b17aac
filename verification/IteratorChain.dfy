/** iter.py's IteratorChain: generators on the heap that pull from one another on demand. */
module IteratorChain {
  import opened Options
  import opened Stages
  import OD = OrderedDict

  /** A Python iterator: a list iterator (no upstream) or the generator of one stage. */
  class Source {
    const upstream: Source?
    const op: Op
    var unread: seq<Value>
    var count: int
    var buffer: seq<Value>
    var seen: set<Value>
    var done: bool
    var ready: seq<Value>
    ghost const Repr: set<object>

    /** Iterators form a chain; no part of this depends on the heap. */
    ghost predicate Valid() decreases Repr {
      && this in Repr
      && (upstream != null ==> upstream.Repr == Repr - {this} && upstream.Valid())
    }

    ghost function Locals(): Local reads this { Local(count, buffer, seen, done) }

    /** Everything this iterator will still yield. */
    ghost function Remaining(): seq<Value>
      requires Valid()
      reads Repr
      decreases Repr
    {
      if upstream == null then unread else ready + Output(op, Locals(), upstream.Remaining())
    }

    /** What it will leave unread in its upstream once it is drained. */
    ghost function Leftover(): seq<Value>
      requires Valid() && upstream != null
      reads Repr
    {
      var input := upstream.Remaining();
      input[Used(op, Locals(), input)..]
    }

    lemma Unfold()
      requires Valid()
      ensures this in Repr
      ensures upstream == null ==> Remaining() == unread
      ensures upstream != null ==>
                && upstream.Repr == Repr - {this} && upstream.Valid()
                && Remaining() == ready + Output(op, Locals(), upstream.Remaining())
    {
    }

    constructor FromList(items: seq<Value>)
      ensures Valid() && fresh(Repr) && upstream == null && Remaining() == items
    {
      upstream, op, unread := null, Take(0), items;
      count, buffer, seen, done, ready := 0, [], {}, false, [];
      Repr := {this};
    }

    constructor Generator(op: Op, upstream: Source)
      requires upstream.Valid()
      ensures Valid() && fresh(this) && Repr == upstream.Repr + {this} && this !in upstream.Repr
      ensures this.op == op && this.upstream == upstream && Locals() == FRESH && ready == []
      ensures Remaining() == Output(op, FRESH, upstream.Remaining())
    {
      this.upstream, this.op, unread := upstream, op, [];
      count, buffer, seen, done, ready := 0, [], {}, false, [];
      Repr := upstream.Repr + {this};
      new;
      assert upstream.Repr == Repr - {this};
    }

    /** The body of the stage's for loop for one pulled element. */
    method Push(v: Value)
      requires !done && ready == []
      modifies this
      ensures (Locals(), ready) == Step(op, old(Locals()), v)
      ensures unread == old(unread)
    {
      match op {
        case Take(n) =>
          if count == n {
            done := true;
          } else {
            ready := [v];
            count := count + 1;
          }
        case Skip(n) =>
          if count < n {
            count := count + 1;
          } else {
            ready := [v];
          }
        case Chunk(n) =>
          buffer := buffer + [v];
          count := count + 1;
          if count == n {
            ready := [Tuple(buffer)];
            buffer := [];
            count := 0;
          }
        case UniqBy(key) =>
          var k := key(v);
          if k !in seen {
            seen := seen + {k};
            ready := [v];
          }
        case Map(f) => ready := [f(v)];
        case Flatmap(expand) => ready := expand(v);
        case Filter(pred) => if pred(v) { ready := [v]; }
      }
    }

    /** What will be unread in its upstream when it next yields or returns. */
    ghost function AfterDemand(): seq<Value>
      requires Valid() && upstream != null
      reads Repr
    {
      var input := upstream.Remaining();
      input[Demand(op, Locals(), input)..]
    }

    /** One turn of the generator's for loop, or its end once the upstream is exhausted. */
    method Turn()
      requires Valid() && upstream != null && ready == [] && !done
      modifies Repr
      ensures Remaining() == old(Remaining()) && Leftover() == old(Leftover())
      ensures ready != [] ==> upstream.Remaining() == old(AfterDemand())
      ensures ready == [] ==> AfterDemand() == old(AfterDemand())
      ensures done || |upstream.Remaining()| < |old(upstream.Remaining())|
      decreases Repr, 0
    {
      hide Output, Used, Demand, Step, Valid, Remaining;
      Unfold();
      ghost var before := upstream.Remaining();
      ghost var st := Locals();
      var v := upstream.Next();
      assert Locals() == st && ready == [];
      if v.None? {
        Pull(op, st, []);
        if op.Chunk? && buffer != [] {
          ready := [Tuple(buffer)];
        }
        done := true;
        Pull(op, Locals(), []);
        assert ready == Flush(op, st);
      } else {
        Pull(op, st, before);
        Push(v.value);
        assert upstream.Remaining() == before[1..];
      }
      Unfold();
    }

    /** next(): the first remaining element, pulling from upstream only on demand. */
    method Next() returns (r: Option<Value>)
      requires Valid()
      modifies Repr
      ensures old(Remaining()) == [] ==> r == None && Remaining() == []
      ensures old(Remaining()) != [] ==> r == Some(old(Remaining())[0]) && Remaining() == old(Remaining())[1..]
      ensures upstream != null ==> Leftover() == old(Leftover())
      ensures upstream != null && r == None ==> done && upstream.Remaining() == Leftover()
      ensures upstream != null && old(ready) != [] ==> upstream.Remaining() == old(upstream.Remaining())
      ensures upstream != null && old(ready) == [] ==>
                var input := old(upstream.Remaining());
                upstream.Remaining() == input[Demand(op, old(Locals()), input)..]
      decreases Repr, 2
    {
      hide Output, Used, Demand, Step, Valid, Remaining, Leftover, AfterDemand;
      Unfold();
      if upstream == null {
        if unread == [] { return None; }
        r := Some(unread[0]);
        unread := unread[1..];
        Unfold();
        return;
      }
      AfterDemandIs();
      Fill();
      AfterDemandIs();
      r := Pop();
    }

    /** Run the generator until it has something to yield or is done. */
    method Fill()
      requires Valid() && upstream != null
      modifies Repr
      ensures ready != [] || done
      ensures Remaining() == old(Remaining()) && Leftover() == old(Leftover())
      ensures old(ready) != [] ==> ready == old(ready) && upstream.Remaining() == old(upstream.Remaining())
      ensures old(ready) == [] ==> (if ready != [] then upstream.Remaining() else AfterDemand()) == old(AfterDemand())
      decreases Repr, 1
    {
      hide Output, Used, Demand, Step, Valid, Remaining, Leftover, AfterDemand;
      Unfold();
      while ready == [] && !done
        invariant Remaining() == old(Remaining()) && Leftover() == old(Leftover())
        invariant old(ready) != [] ==> ready == old(ready) && upstream.Remaining() == old(upstream.Remaining())
        invariant old(ready) == [] ==>
                    (if ready != [] then upstream.Remaining() else AfterDemand()) == old(AfterDemand())
        decreases !done, |upstream.Remaining()|
      {
        Turn();
      }
    }

    /** Yield the first waiting element. */
    method Pop() returns (r: Option<Value>)
      requires Valid() && upstream != null && (ready != [] || done)
      modifies this
      ensures old(ready) == [] ==> r == None && done && old(Remaining()) == []
      ensures old(ready) == [] ==> upstream.Remaining() == Leftover() == AfterDemand()
      ensures old(ready) != [] ==> r == Some(old(Remaining())[0]) && old(Remaining()) == [r.value] + Remaining()
      ensures Leftover() == old(Leftover()) && upstream.Remaining() == old(upstream.Remaining())
      ensures AfterDemand() == old(AfterDemand()) && (old(ready) == [] ==> Remaining() == [])
    {
      hide Output, Used, Demand, Step, Valid, Remaining;
      Unfold();
      if ready == [] {
        Pull(op, Locals(), upstream.Remaining());
        return None;
      }
      r := Some(ready[0]);
      ready := ready[1..];
      Unfold();
    }

    lemma AfterDemandIs()
      requires Valid() && upstream != null
      ensures AfterDemand() == upstream.Remaining()[Demand(op, Locals(), upstream.Remaining())..]
    {
    }

    /** Everything that remains, as a list. */
    method Drain() returns (all: seq<Value>)
      requires Valid()
      modifies Repr
      ensures all == old(Remaining()) && Remaining() == []
      ensures upstream != null ==> upstream.Remaining() == old(Leftover())
    {
      hide Output, Used, Demand, Step, Valid, Remaining;
      all := [];
      while true
        invariant all + Remaining() == old(Remaining())
        invariant upstream != null ==> Leftover() == old(Leftover())
        decreases |Remaining()|
      {
        ghost var before := Remaining();
        var r := Next();
        if r.None? { return; }
        assert before == [r.value] + Remaining();
        all := all + [r.value];
      }
    }
  }

  /** What next(chain) gives: an element, StopIteration, or the ownership assertion. */
  datatype NextResult = Item(value: Value) | StopIteration | AssertionError

  class IteratorChain {
    const inner: Source
    var moved: bool

    ghost predicate Valid() reads this { inner.Valid() && this !in inner.Repr }

    constructor (items: seq<Value>)
      ensures Valid() && !moved && fresh(inner.Repr) && inner.upstream == null
      ensures inner.Remaining() == items
    {
      inner := new Source.FromList(items);
      moved := false;
    }

    constructor Around(inner: Source)
      requires inner.Valid()
      ensures Valid() && !moved && this.inner == inner
    {
      this.inner := inner;
      moved := false;
    }

    /** take, skip, chunk, uniq_by, map, flatmap and filter: wrap the inner iterator in a new
        stage and give up this handle; None is the assertion of a handle already given up. */
    method Replace(op: Op) returns (r: Option<IteratorChain>)
      requires Valid()
      modifies this
      ensures moved && Valid()
      ensures r.None? <==> old(moved)
      ensures r.Some? ==> fresh(r.value) && r.value.Valid() && !r.value.moved
      ensures r.Some? ==> fresh(r.value.inner) && r.value.inner.upstream == inner && r.value.inner.op == op
      ensures r.Some? ==> r.value.inner.Repr == inner.Repr + {r.value.inner}
      ensures r.Some? ==> r.value.inner.Locals() == FRESH && r.value.inner.ready == []
      ensures r.Some? ==> r.value.inner.Remaining() == Eager(op, inner.Remaining())
    {
      if moved { return None; }
      moved := true;
      var stage := new Source.Generator(op, inner);
      LazyIsEager(op, inner.Remaining());
      var next := new IteratorChain.Around(stage);
      r := Some(next);
    }

    method Next() returns (r: NextResult)
      requires Valid()
      modifies inner.Repr
      ensures moved == old(moved)
      ensures r == AssertionError <==> moved
      ensures moved ==> inner.Remaining() == old(inner.Remaining())
      ensures !moved && old(inner.Remaining()) == [] ==> r == StopIteration && inner.Remaining() == []
      ensures !moved && old(inner.Remaining()) != [] ==>
                r == Item(old(inner.Remaining())[0]) && inner.Remaining() == old(inner.Remaining())[1..]
    {
      if moved { return AssertionError; }
      var v := inner.Next();
      r := if v.None? then StopIteration else Item(v.value);
    }

    /** to_list, which does not look at moved. */
    method ToList() returns (all: seq<Value>)
      requires Valid()
      modifies inner.Repr
      ensures all == old(inner.Remaining()) && inner.Remaining() == [] && moved == old(moved)
      ensures inner.upstream != null ==> inner.upstream.Remaining() == old(inner.Leftover())
    {
      all := inner.Drain();
    }

    /** group_into_dict, which does not look at moved either. */
    method GroupIntoDict(key: Value -> Value) returns (grouped: OD.Dict<Value, seq<Value>>)
      requires Valid()
      modifies inner.Repr
      ensures grouped == OD.Group(Labelled(old(inner.Remaining()), key))
      ensures inner.Remaining() == [] && moved == old(moved)
    {
      hide OD.Group, OD.Append, Output, Used, Demand, Source.Valid, Source.Remaining, Labelled;
      LabelledAt(inner.Remaining(), key);
      ghost var all := inner.Remaining();
      ghost var n: nat := 0;
      grouped := OD.Empty();
      OD.GroupNone<Value, Value>(Labelled(all, key)[..0]);
      while true
        invariant n <= |all| && inner.Remaining() == all[n..]
        invariant grouped == OD.Group(Labelled(all, key)[..n])
        decreases |all| - n
      {
        var v := inner.Next();
        if v.None? {
          assert Labelled(all, key)[..n] == Labelled(all, key);
          return;
        }
        OD.GroupStep(Labelled(all, key), n);
        grouped := OD.Append(grouped, (key(v.value), v.value));
        n := n + 1;
      }
    }
  }

  /** The values with their keys, in order. */
  function Labelled(s: seq<Value>, key: Value -> Value): (r: seq<(Value, Value)>)
    ensures |r| == |s| && forall i :: 0 <= i < |s| ==> r[i] == (key(s[i]), s[i])
  {
    seq(|s|, i requires 0 <= i < |s| => (key(s[i]), s[i]))
  }

  lemma LabelledAt(s: seq<Value>, key: Value -> Value)
    ensures |Labelled(s, key)| == |s| && forall i :: 0 <= i < |s| ==> Labelled(s, key)[i] == (key(s[i]), s[i])
  {
  }

  /** The eager list functions applied one after the other. */
  function Composed(ops: seq<Op>, s: seq<Value>): seq<Value> {
    if ops == [] then s else Eager(ops[|ops| - 1], Composed(ops[..|ops| - 1], s))
  }

  /** Stages apply from the first to the last. */
  lemma {:induction false} ComposedConcat(a: seq<Op>, b: seq<Op>, s: seq<Value>)
    ensures Composed(a + b, s) == Composed(b, Composed(a, s))
    ensures forall op :: Composed([op], s) == Eager(op, s)
    decreases |b|
  {
    hide Eager;
    forall op: Op ensures Composed([op], s) == Eager(op, s) {
      assert [op][..0] == [];
    }
    if b == [] {
      assert a + b == a;
    } else {
      assert (a + b)[..|a + b| - 1] == a + b[..|b| - 1];
      ComposedConcat(a, b[..|b| - 1], s);
    }
  }

  /** Any composition of stages over a list, drained, is the composition of the eager
      functions. */
  method Pipeline(items: seq<Value>, ops: seq<Op>) returns (all: seq<Value>)
    ensures all == Composed(ops, items)
  {
    var chain := new IteratorChain(items);
    for i := 0 to |ops|
      invariant fresh(chain) && fresh(chain.inner.Repr) && chain.Valid() && !chain.moved
      invariant chain.inner.Remaining() == Composed(ops[..i], items)
    {
      var next := chain.Replace(ops[i]);
      assert ops[..i + 1][..i] == ops[..i];
      chain := next.value;
    }
    assert ops[..|ops|] == ops;
    all := chain.ToList();
  }

  /** take(n) after any stages: yields at most n, and takes exactly min(length, n + 1) of what
      the stages before it yield; a negative n takes everything. */
  method TakeFrom(upstream: IteratorChain, n: int) returns (all: seq<Value>)
    requires upstream.Valid() && !upstream.moved
    modifies upstream, upstream.inner.Repr
    ensures var input := old(upstream.inner.Remaining());
            && all == (if 0 <= n < |input| then input[..n] else input)
            && upstream.inner.Remaining() == (if 0 <= n && n + 1 < |input| then input[n + 1..] else [])
  {
    TakePulls(n, FRESH, upstream.inner.Remaining());
    var chain := upstream.Replace(Take(n));
    all := chain.value.ToList();
  }
}
