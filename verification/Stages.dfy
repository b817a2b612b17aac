/** The generators of iter.py's IteratorChain as value transformers: what a stage does with
    one pulled element, and the eager list function each stage must agree with. */
module Stages {
  import opened Options

  datatype Value = Atom(id: int) | Tuple(items: seq<Value>)

  /** The stages.  uniq() is UniqBy with the identity as key. */
  datatype Op =
    | Take(n: int)
    | Skip(n: int)
    | Chunk(n: int)
    | UniqBy(key: Value -> Value)
    | Map(f: Value -> Value)
    | Flatmap(expand: Value -> seq<Value>)
    | Filter(pred: Value -> bool)

  /** The local variables of a suspended generator; done once it has returned. */
  datatype Local = Local(count: int, buffer: seq<Value>, seen: set<Value>, done: bool)

  const FRESH := Local(0, [], {}, false)

  /** One turn of the stage's for loop: the new locals and what it yields. */
  function Step(op: Op, st: Local, v: Value): (Local, seq<Value>) {
    match op
    case Take(n) => if st.count == n then (st.(done := true), []) else (st.(count := st.count + 1), [v])
    case Skip(n) => if st.count < n then (st.(count := st.count + 1), []) else (st, [v])
    case Chunk(n) =>
      if st.count + 1 == n then (st.(count := 0, buffer := []), [Tuple(st.buffer + [v])])
      else (st.(count := st.count + 1, buffer := st.buffer + [v]), [])
    case UniqBy(key) => if key(v) in st.seen then (st, []) else (st.(seen := st.seen + {key(v)}), [v])
    case Map(f) => (st, [f(v)])
    case Flatmap(expand) => (st, expand(v))
    case Filter(pred) => (st, if pred(v) then [v] else [])
  }

  /** What the stage still yields when its for loop runs out of input. */
  function Flush(op: Op, st: Local): seq<Value> {
    if op.Chunk? && st.buffer != [] then [Tuple(st.buffer)] else []
  }

  /** Everything a stage with these locals will yield from this input. */
  function Output(op: Op, st: Local, input: seq<Value>): seq<Value>
    decreases |input|
  {
    if st.done then []
    else if input == [] then Flush(op, st)
    else Step(op, st, input[0]).1 + Output(op, Step(op, st, input[0]).0, input[1..])
  }

  /** How many elements of the input the stage pulls in all. */
  function Used(op: Op, st: Local, input: seq<Value>): (k: nat)
    ensures k <= |input|
    decreases |input|
  {
    if st.done || input == [] then 0 else 1 + Used(op, Step(op, st, input[0]).0, input[1..])
  }

  /** How many elements the stage pulls before it next yields or returns. */
  function Demand(op: Op, st: Local, input: seq<Value>): (k: nat)
    ensures k <= |input|
    decreases |input|
  {
    if st.done || input == [] then 0
    else if Step(op, st, input[0]).1 != [] then 1
    else 1 + Demand(op, Step(op, st, input[0]).0, input[1..])
  }

  /** What the stage has yielded once it has pulled exactly these elements. */
  function Emitted(op: Op, st: Local, pulled: seq<Value>): seq<Value>
    decreases |pulled|
  {
    if st.done || pulled == [] then []
    else Step(op, st, pulled[0]).1 + Emitted(op, Step(op, st, pulled[0]).0, pulled[1..])
  }

  /** Pulling one element moves a stage along its output, its use and its demand. */
  lemma Pull(op: Op, st: Local, input: seq<Value>)
    ensures st.done || input == [] ==>
              && Output(op, st, input) == (if st.done then [] else Flush(op, st))
              && Used(op, st, input) == Demand(op, st, input) == 0
    ensures !st.done && input != [] ==>
            var (next, out) := Step(op, st, input[0]);
            && Output(op, st, input) == out + Output(op, next, input[1..])
            && input[Used(op, st, input)..] == input[1..][Used(op, next, input[1..])..]
            && input[Demand(op, st, input)..] ==
               if out != [] then input[1..] else input[1..][Demand(op, next, input[1..])..]
  {
  }

  /** Stages are lazy: no shorter pull would have let the stage yield anything. */
  lemma {:induction false} DemandIsLeast(op: Op, st: Local, input: seq<Value>, u: nat)
    requires u <= |input|
    ensures u < Demand(op, st, input) ==> Emitted(op, st, input[..u]) == []
    ensures u == Demand(op, st, input) ==>
              Emitted(op, st, input[..u]) != [] || Output(op, st, input) == [] || u == |input|
    decreases u
  {
    if u > 0 && !st.done && Step(op, st, input[0]).1 == [] {
      assert input[..u][1..] == input[1..][..u - 1];
      DemandIsLeast(op, Step(op, st, input[0]).0, input[1..], u - 1);
    }
  }

  // ------------------------------------------------------- eager references

  /** The eager list function of each stage. */
  function Eager(op: Op, s: seq<Value>): seq<Value> {
    match op
    case Take(n) => if 0 <= n < |s| then s[..n] else s
    case Skip(n) => if n <= 0 then s else if n <= |s| then s[n..] else []
    case Chunk(n) => if n >= 1 then Chunks(s, n) else if s == [] then [] else [Tuple(s)]
    case UniqBy(key) => Heads(s, key)
    case Map(f) => seq(|s|, i requires 0 <= i < |s| => f(s[i]))
    case Flatmap(expand) => Expanded(s, expand)
    case Filter(pred) => Kept(s, pred)
  }

  function Chunks(s: seq<Value>, n: nat): seq<Value>
    requires n >= 1
  {
    if s == [] then []
    else if |s| <= n then [Tuple(s)]
    else [Tuple(s[..n])] + Chunks(s[n..], n)
  }

  /** The elements whose key no earlier element has. */
  function Heads(s: seq<Value>, key: Value -> Value): seq<Value> {
    if s == [] then []
    else
      var front, last := s[..|s| - 1], s[|s| - 1];
      if exists v :: v in front && key(v) == key(last) then Heads(front, key)
      else Heads(front, key) + [last]
  }

  function Expanded(s: seq<Value>, expand: Value -> seq<Value>): seq<Value> {
    if s == [] then [] else expand(s[0]) + Expanded(s[1..], expand)
  }

  function Kept(s: seq<Value>, pred: Value -> bool): seq<Value> {
    if s == [] then [] else if pred(s[0]) then [s[0]] + Kept(s[1..], pred) else Kept(s[1..], pred)
  }

  /** Every lazy stage yields what its eager list function returns. */
  lemma LazyIsEager(op: Op, s: seq<Value>)
    ensures Output(op, FRESH, s) == Eager(op, s)
  {
    match op
    case Take(n) => TakeOutput(n, FRESH, s);
    case Skip(n) => SkipOutput(n, FRESH, s);
    case Chunk(n) =>
      ChunkOutput(n, FRESH, s);
      assert [] + s == s;
    case UniqBy(key) =>
      UniqOutput(key, FRESH, [], s);
      assert [] + s == s;
    case _ => PointwiseOutput(op, FRESH, s);
  }

  lemma {:induction false} TakeOutput(n: int, st: Local, s: seq<Value>)
    requires !st.done && 0 <= st.count && (st.count <= n || n < 0)
    ensures Output(Take(n), st, s) == if n >= 0 && n - st.count < |s| then s[..n - st.count] else s
    decreases |s|
  {
    if s != [] {
      var next := Step(Take(n), st, s[0]);
      if st.count == n {
        assert Output(Take(n), next.0, s[1..]) == [];
      } else {
        TakeOutput(n, next.0, s[1..]);
        assert [s[0]] + s[1..] == s;
        if n >= 0 && n - st.count < |s| { assert [s[0]] + s[1..][..n - st.count - 1] == s[..n - st.count]; }
      }
    }
  }

  /** take(n) pulls exactly min(length, n + 1) elements, one more than it yields when there is
      one more; a negative n never stops the stage. */
  lemma {:induction false} TakePulls(n: int, st: Local, s: seq<Value>)
    requires !st.done && 0 <= st.count && (st.count <= n || n < 0)
    ensures Used(Take(n), st, s) == if n >= 0 && n - st.count + 1 < |s| then n - st.count + 1 else |s|
    ensures Demand(Take(n), st, s) == if s == [] then 0 else 1
    decreases |s|
  {
    if s != [] && st.count != n {
      TakePulls(n, Step(Take(n), st, s[0]).0, s[1..]);
    } else if s != [] {
      assert Used(Take(n), Step(Take(n), st, s[0]).0, s[1..]) == 0;
    }
  }

  /** Every other stage pulls its whole input. */
  lemma {:induction false} OthersPullAll(op: Op, st: Local, s: seq<Value>)
    requires !op.Take? && !st.done
    ensures Used(op, st, s) == |s|
    decreases |s|
  {
    if s != [] { OthersPullAll(op, Step(op, st, s[0]).0, s[1..]); }
  }

  lemma {:induction false} SkipOutput(n: int, st: Local, s: seq<Value>)
    requires !st.done && 0 <= st.count
    ensures Output(Skip(n), st, s) == if n <= st.count then s else if n - st.count <= |s| then s[n - st.count..] else []
    decreases |s|
  {
    if s != [] {
      SkipOutput(n, Step(Skip(n), st, s[0]).0, s[1..]);
      assert n <= st.count ==> [s[0]] + s[1..] == s;
    }
  }

  lemma {:induction false} ChunkOutput(n: int, st: Local, s: seq<Value>)
    requires !st.done && st.count == |st.buffer| && (n >= 1 ==> |st.buffer| < n)
    ensures Output(Chunk(n), st, s) == Eager(Chunk(n), st.buffer + s)
    decreases |s|
  {
    if s == [] {
      assert st.buffer + s == st.buffer;
    } else {
      var next := Step(Chunk(n), st, s[0]);
      ChunkOutput(n, next.0, s[1..]);
      assert st.buffer + s == (st.buffer + [s[0]]) + s[1..];
      if st.count + 1 == n {
        var all := st.buffer + s;
        assert all[..n] == st.buffer + [s[0]] && all[n..] == s[1..] == next.0.buffer + s[1..];
        if |all| == n { assert all == all[..n]; }
      }
    }
  }

  lemma {:induction false} UniqOutput(key: Value -> Value, st: Local, past: seq<Value>, s: seq<Value>)
    requires !st.done && st.seen == KeysOf(past, key)
    ensures Heads(past, key) + Output(UniqBy(key), st, s) == Heads(past + s, key)
    decreases |s|
  {
    hide Heads, Output, Used, Demand, KeysOf;
    if s == [] {
      assert past + s == past;
      Pull(UniqBy(key), st, s);
    } else {
      var v := s[0];
      var next := Step(UniqBy(key), st, v).0;
      assert past + s == (past + [v]) + s[1..];
      Pull(UniqBy(key), st, s);
      UniqStep(past, v, key);
      UniqOutput(key, next, past + [v], s[1..]);
      var rest := Output(UniqBy(key), next, s[1..]);
      if key(v) in st.seen {
        assert Output(UniqBy(key), st, s) == rest;
      } else {
        assert (Heads(past, key) + [v]) + rest == Heads(past, key) + ([v] + rest);
      }
    }
  }

  function KeysOf(s: seq<Value>, key: Value -> Value): set<Value> {
    set v | v in s :: key(v)
  }

  lemma UniqStep(past: seq<Value>, v: Value, key: Value -> Value)
    ensures KeysOf(past + [v], key) == KeysOf(past, key) + {key(v)}
    ensures Heads(past + [v], key) ==
            if key(v) in KeysOf(past, key) then Heads(past, key) else Heads(past, key) + [v]
  {
    var before, after := KeysOf(past, key), KeysOf(past + [v], key);
    assert (past + [v])[..|past|] == past;
    forall k ensures k in after <==> k in before || k == key(v) {
      if u :| u in past && key(u) == k { assert u in past + [v]; }
      assert (past + [v])[|past|] == v;
    }
  }

  /** The stages without locals treat each element by itself. */
  lemma {:induction false} PointwiseOutput(op: Op, st: Local, s: seq<Value>)
    requires !st.done && (op.Map? || op.Flatmap? || op.Filter?)
    ensures Output(op, st, s) == Eager(op, s)
    decreases |s|
  {
    if s != [] { PointwiseOutput(op, st, s[1..]); }
  }

  // ------------------------------------------------ what the references mean

  /** take(n) and skip(n) cut the input in two after n elements; a negative n is no limit for
      the one and nothing to skip for the other. */
  lemma TakeAndSkip(n: int, s: seq<Value>)
    ensures n < 0 ==> Output(Take(n), FRESH, s) == s && Output(Skip(n), FRESH, s) == s
    ensures n >= 0 ==>
              && Output(Take(n), FRESH, s) + Output(Skip(n), FRESH, s) == s
              && |Output(Take(n), FRESH, s)| == if n < |s| then n else |s|
  {
    LazyIsEager(Take(n), s);
    LazyIsEager(Skip(n), s);
    if 0 <= n <= |s| { assert s[..n] + s[n..] == s; }
  }

  /** With a size below one, chunk never finds a chunk full and yields everything at the end. */
  lemma ChunkWithoutSize(n: int, s: seq<Value>)
    requires n < 1
    ensures Output(Chunk(n), FRESH, s) == if s == [] then [] else [Tuple(s)]
  {
    LazyIsEager(Chunk(n), s);
  }

  /** map, flatmap and filter treat the elements one by one, in order. */
  lemma {:induction false} PointwiseMeaning(op: Op, s: seq<Value>, t: seq<Value>)
    requires op.Map? || op.Flatmap? || op.Filter?
    ensures Eager(op, s + t) == Eager(op, s) + Eager(op, t)
    decreases |s|
  {
    if s == [] {
      assert s + t == t;
    } else if !op.Map? {
      PointwiseMeaning(op, s[1..], t);
      assert (s + t)[0] == s[0] && (s + t)[1..] == s[1..] + t;
    }
  }

  lemma PointwiseOne(op: Op, v: Value)
    ensures op.Map? ==> Eager(op, [v]) == [op.f(v)]
    ensures op.Flatmap? ==> Eager(op, [v]) == op.expand(v)
    ensures op.Filter? ==> Eager(op, [v]) == if op.pred(v) then [v] else []
  {
    assert [v][1..] == [];
    match op
    case Flatmap(expand) => assert Expanded([v], expand) == expand(v) + Expanded([], expand);
    case Filter(pred) => assert Kept([], pred) == [];
    case _ =>
  }

  // ----------------------------------------------------------------- chunks

  function Concat(chunks: seq<Value>): seq<Value> {
    if chunks == [] then []
    else (if chunks[0].Tuple? then chunks[0].items else []) + Concat(chunks[1..])
  }

  /** Chunks cut the input, in order, into tuples of n, the last one possibly shorter. */
  lemma ChunksCut(s: seq<Value>, n: nat)
    requires n >= 1
    ensures Concat(Chunks(s, n)) == s
    ensures |Chunks(s, n)| == (|s| + n - 1) / n
    ensures forall i :: 0 <= i < |Chunks(s, n)| ==> Chunks(s, n)[i].Tuple? && 1 <= |Chunks(s, n)[i].items| <= n
    ensures forall i :: 0 <= i < |Chunks(s, n)| - 1 ==> |Chunks(s, n)[i].items| == n
  {
    hide Chunks, Concat;
    ChunksConcat(s, n);
    ChunksNumber(s, n);
    ChunkSizes(s, n);
  }

  lemma {:induction false} ChunksConcat(s: seq<Value>, n: nat)
    requires n >= 1
    ensures Concat(Chunks(s, n)) == s
    decreases |s|
  {
    if |s| > n {
      ChunksConcat(s[n..], n);
      ConcatCons(s[..n], Chunks(s[n..], n));
      hide Concat;
      assert s[..n] + s[n..] == s;
    } else if s != [] {
      ConcatCons(s, []);
    }
  }

  lemma ConcatCons(items: seq<Value>, rest: seq<Value>)
    ensures Concat([Tuple(items)] + rest) == items + Concat(rest)
  {
    assert ([Tuple(items)] + rest)[1..] == rest;
  }

  lemma {:induction false} ChunksNumber(s: seq<Value>, n: nat)
    requires n >= 1
    ensures |Chunks(s, n)| == (|s| + n - 1) / n
    decreases |s|
  {
    if |s| > n {
      ChunksNumber(s[n..], n);
      CeilStep(|s|, n);
    } else if s != [] {
      CeilStep(|s|, n);
    } else {
      Quotient(n - 1, n, 0, n - 1);
    }
  }

  lemma {:induction false} ChunkSizes(s: seq<Value>, n: nat)
    requires n >= 1
    ensures forall i :: 0 <= i < |Chunks(s, n)| ==> Chunks(s, n)[i].Tuple? && 1 <= |Chunks(s, n)[i].items| <= n
    ensures forall i :: 0 <= i < |Chunks(s, n)| - 1 ==> |Chunks(s, n)[i].items| == n
    decreases |s|
  {
    if |s| > n {
      ChunkSizes(s[n..], n);
      assert Chunks(s, n) == [Tuple(s[..n])] + Chunks(s[n..], n);
    }
  }

  /** One chunk less for n elements less, and one chunk for the last n or fewer. */
  lemma CeilStep(m: nat, n: nat)
    requires m >= 1 && n >= 1
    ensures (m + n - 1) / n == if m <= n then 1 else 1 + (m - n + n - 1) / n
  {
    if m <= n {
      Quotient(m + n - 1, n, 1, m - 1);
    } else {
      var q := (m - 1) / n;
      assert (m - 1) == q * n + (m - 1) % n;
      assert m + n - 1 == (q + 1) * n + (m - 1) % n;
      Quotient(m + n - 1, n, q + 1, (m - 1) % n);
    }
  }

  lemma Quotient(a: int, n: int, q: int, r: int)
    requires 0 <= r < n && a == q * n + r
    ensures a / n == q
  {
    var q', r' := a / n, a % n;
    assert a == q' * n + r';
    if q' < q { Multiple(q - q', n, r' - r); }
    if q' > q { Multiple(q' - q, n, r - r'); }
  }

  lemma Multiple(d: int, n: int, e: int)
    requires d >= 1 && n >= 1 && e < n
    ensures d * n != e
  {
    if d > 1 { Multiple(d - 1, n, e - n); }
  }

  /** How batched ends: by running out of input or with one of its two ValueErrors. */
  datatype BatchEnd = Exhausted | SizeTooSmall | IncompleteBatch

  /** The batches the generator yields, and how it ends. */
  method Batched(s: seq<Value>, n: int, strict: bool) returns (batches: seq<Value>, end: BatchEnd)
    ensures end == SizeTooSmall <==> n < 1
    ensures end == SizeTooSmall ==> batches == []
    ensures end == Exhausted ==> batches == Chunks(s, n)
    ensures end == IncompleteBatch <==> n >= 1 && strict && |s| % n != 0
    ensures end == IncompleteBatch ==>
              exists last :: Chunks(s, n) == batches + [last] && last.Tuple? && |last.items| < n
  {
    if n < 1 {
      return [], SizeTooSmall;
    }
    hide Chunks;
    batches := [];
    var rest := s;
    while rest != []
      invariant Chunks(s, n) == batches + Chunks(rest, n)
      invariant |rest| % n == |s| % n
      decreases |rest|
    {
      var batch := if |rest| < n then rest else rest[..n];
      if strict && |batch| != n {
        ModStep(|rest|, n);
        ChunksFront(rest, n);
        assert Chunks(s, n) == batches + [Tuple(rest)];
        return batches, IncompleteBatch;
      }
      ChunksFront(rest, n);
      if |rest| >= n { ModStep(|rest|, n); }
      if |rest| < n {
        ModStep(|rest|, n);
        return batches + [Tuple(batch)], Exhausted;
      }
      batches := batches + [Tuple(batch)];
      rest := rest[|batch|..];
    }
    ChunksFront(rest, n);
    ModStep(|rest|, n);
    end := Exhausted;
  }

  lemma ChunksFront(s: seq<Value>, n: nat)
    requires n >= 1
    ensures |s| >= n ==> Chunks(s, n) == [Tuple(s[..n])] + Chunks(s[n..], n)
    ensures 0 < |s| <= n ==> Chunks(s, n) == [Tuple(s)]
    ensures s == [] ==> Chunks(s, n) == []
  {
    if |s| == n { assert s[..n] == s; }
  }

  lemma ModStep(m: nat, n: nat)
    requires n >= 1
    ensures m % n == if m < n then m else (m - n) % n
  {
    if m >= n {
      var q, r := m / n, m % n;
      assert m - n == (q - 1) * n + r;
      Quotient(m - n, n, q - 1, r);
    }
  }

  /** chunk(n) is batched(n) exactly when batched accepts n. */
  method ChunkIsBatched(s: seq<Value>, n: int) returns (batches: seq<Value>, end: BatchEnd)
    ensures end == Exhausted <==> n >= 1
    ensures n >= 1 ==> batches == Output(Chunk(n), FRESH, s)
  {
    batches, end := Batched(s, n, false);
    LazyIsEager(Chunk(n), s);
  }
}
