/** The value of a PrefixCounter tree, and what it counts: prefix_counter.py's add, depth and
    own_count against the multiset of added tuples. */
module Trie {
  import opened Options

  /** One node: its count, its reservoir of last elements, and its children in insertion order. */
  datatype Trie<K> = Trie(count: nat, samples: seq<K>, kids: Kids<K>)
  datatype Kids<K> = NoKids | Kid(key: K, sub: Trie<K>, rest: Kids<K>)

  const CAPACITY: nat := 10

  function Empty<K>(): Trie<K> { Trie(0, [], NoKids) }

  /** _add_reservoir; draw is the random number, reduced to the range randint draws from. */
  function AddReservoir<K>(reservoir: seq<K>, v: K, capacity: nat, draw: nat): seq<K>
    requires capacity >= 1
  {
    if |reservoir| < capacity then reservoir + [v]
    else
      var idx := draw % |reservoir|;
      if idx < capacity then reservoir[idx := v] else reservoir
  }

  /** The tree after one more tuple. */
  function Insert<K(==)>(t: Trie<K>, value: seq<K>, draw: nat): Trie<K>
    decreases |value|, 0
  {
    if |value| == 0 then t.(count := t.count + 1)
    else if |value| == 1 then
      t.(count := t.count + 1, samples := AddReservoir(t.samples, value[0], CAPACITY, draw))
    else
      t.(count := t.count + 1, kids := InsertKid(t.kids, value[0], value[1..], draw))
  }

  function InsertKid<K(==)>(kids: Kids<K>, key: K, tail: seq<K>, draw: nat): Kids<K>
    decreases |tail|, 1, kids
  {
    match kids
    case NoKids => Kid(key, Insert(Empty(), tail, draw), NoKids)
    case Kid(k, sub, rest) =>
      if k == key then Kid(k, Insert(sub, tail, draw), rest)
      else Kid(k, sub, InsertKid(rest, key, tail, draw))
  }

  /** The tree of some tuples added one by one. */
  function FromTuples<K(==)>(values: seq<seq<K>>, draws: seq<nat>): Trie<K>
    requires |draws| == |values|
  {
    if values == [] then Empty()
    else
      var n := |values| - 1;
      Insert(FromTuples(values[..n], draws[..n]), values[n], draws[n])
  }

  // -------------------------------------------------------------- structure

  function Find<K(==)>(kids: Kids<K>, key: K): Option<Trie<K>> {
    match kids
    case NoKids => None
    case Kid(k, sub, rest) => if k == key then Some(sub) else Find(rest, key)
  }

  /** The node at a path of keys. */
  function At<K(==)>(t: Trie<K>, path: seq<K>): Option<Trie<K>>
    decreases |path|
  {
    if path == [] then Some(t)
    else
      var sub := Find(t.kids, path[0]);
      if sub.None? then None else At(sub.value, path[1..])
  }

  function KidCounts<K>(kids: Kids<K>): nat {
    match kids case NoKids => 0 case Kid(_, sub, rest) => sub.count + KidCounts(rest)
  }

  /** What is left of a node's count without its children. */
  function OwnCount<K>(t: Trie<K>): int {
    if t.kids.NoKids? then t.count else t.count - KidCounts(t.kids)
  }

  function Max(a: nat, b: nat): nat { if a >= b then a else b }

  /** The number of levels below a node. */
  function Depth<K>(t: Trie<K>): nat {
    if t.kids.NoKids? then 0 else 1 + KidsDepth(t.kids)
  }

  function KidsDepth<K>(kids: Kids<K>): nat {
    match kids case NoKids => 0 case Kid(_, sub, rest) => Max(Depth(sub), KidsDepth(rest))
  }

  function TotalOwn<K>(t: Trie<K>): int {
    OwnCount(t) + KidsTotalOwn(t.kids)
  }

  function KidsTotalOwn<K>(kids: Kids<K>): int {
    match kids case NoKids => 0 case Kid(_, sub, rest) => TotalOwn(sub) + KidsTotalOwn(rest)
  }

  /** Own counts over the whole tree add up to the root's count. */
  lemma {:induction false} OwnCountsSumUp<K>(t: Trie<K>)
    ensures TotalOwn(t) == t.count
  {
    KidsOwnCountsSumUp(t.kids);
  }

  lemma {:induction false} KidsOwnCountsSumUp<K>(kids: Kids<K>)
    ensures KidsTotalOwn(kids) == KidCounts(kids)
  {
    match kids
    case NoKids =>
    case Kid(_, sub, rest) =>
      OwnCountsSumUp(sub);
      KidsOwnCountsSumUp(rest);
  }

  // -------------------------------------------------- the tuples of a node

  /** The tuples of at least two elements that start with key, without it. */
  function Below<K(==)>(added: seq<seq<K>>, key: K): seq<seq<K>> {
    if added == [] then []
    else
      var last := added[|added| - 1];
      var front := Below(added[..|added| - 1], key);
      if |last| >= 2 && last[0] == key then front + [last[1..]] else front
  }

  /** The elements of the one-element tuples. */
  function Singles<K>(added: seq<seq<K>>): seq<K> {
    if added == [] then []
    else
      var last := added[|added| - 1];
      var front := Singles(added[..|added| - 1]);
      if |last| == 1 then front + [last[0]] else front
  }

  /** The keys of the children, in the order of their insertion. */
  function KeysOf<K>(kids: Kids<K>): seq<K> {
    match kids case NoKids => [] case Kid(k, _, rest) => [k] + KeysOf(rest)
  }

  /** The first elements of the tuples of at least two, each once, as they first occur. */
  function Heads<K(==)>(added: seq<seq<K>>): seq<K> {
    if added == [] then []
    else
      var front, last := Heads(added[..|added| - 1]), added[|added| - 1];
      if |last| >= 2 && last[0] !in front then front + [last[0]] else front
  }

  lemma HeadsStep<K>(added: seq<seq<K>>, value: seq<K>)
    ensures Heads(added + [value]) ==
            if |value| >= 2 && value[0] !in Heads(added) then Heads(added) + [value[0]] else Heads(added)
  {
    assert (added + [value])[..|added|] == added;
  }

  /** Each such element stands there once, ... */
  lemma {:induction false} HeadsAre<K>(added: seq<seq<K>>)
    ensures forall i, j :: 0 <= i < j < |Heads(added)| ==> Heads(added)[i] != Heads(added)[j]
    ensures forall k :: k in Heads(added) <==> exists i :: 0 <= i < |added| && |added[i]| >= 2 && added[i][0] == k
  {
    if added != [] {
      var n := |added| - 1;
      HeadsAre(added[..n]);
      HeadsStep(added[..n], added[n]);
      hide Heads;
      assert added == added[..n] + [added[n]];
    }
  }

  /** ... and no later tuple moves it. */
  lemma {:induction false} HeadsGrow<K>(added: seq<seq<K>>, more: seq<seq<K>>)
    ensures Heads(added) <= Heads(added + more)
    decreases |more|
  {
    hide Heads;
    if more == [] {
      assert added + more == added;
    } else {
      var n := |more| - 1;
      HeadsGrow(added, more[..n]);
      HeadsStep(added + more[..n], more[n]);
      assert added + more == added + more[..n] + [more[n]];
    }
  }

  lemma {:induction false} InsertKidKeys<K>(kids: Kids<K>, key: K, tail: seq<K>, draw: nat)
    ensures KeysOf(InsertKid(kids, key, tail, draw)) ==
            if key in KeysOf(kids) then KeysOf(kids) else KeysOf(kids) + [key]
    decreases kids
  {
    hide Insert;
    if kids.Kid? && kids.key != key { InsertKidKeys(kids.rest, key, tail, draw); }
  }

  function Min(a: nat, b: nat): nat { if a <= b then a else b }

  ghost predicate SamplesOk<K>(samples: seq<K>, added: seq<seq<K>>) {
    |samples| == Min(CAPACITY, |Singles(added)|) && multiset(samples) <= multiset(Singles(added))
  }

  /** t is a tree that results from adding exactly these tuples. */
  ghost predicate Represents<K(!new)>(t: Trie<K>, added: seq<seq<K>>) {
    && t.count == |added|
    && SamplesOk(t.samples, added)
    && KidsRepresent(t.kids, added)
    && (forall k :: Below(added, k) != [] ==> Find(t.kids, k).Some?)
    && KeysOf(t.kids) == Heads(added)
  }

  ghost predicate KidsRepresent<K(!new)>(kids: Kids<K>, added: seq<seq<K>>) {
    match kids
    case NoKids => true
    case Kid(k, sub, rest) =>
      && Below(added, k) != [] && Represents(sub, Below(added, k))
      && Find(rest, k).None? && KidsRepresent(rest, added)
  }

  lemma BelowStep<K>(added: seq<seq<K>>, value: seq<K>, k: K)
    ensures Below(added + [value], k) ==
            if |value| >= 2 && value[0] == k then Below(added, k) + [value[1..]] else Below(added, k)
    ensures Singles(added + [value]) == if |value| == 1 then Singles(added) + [value[0]] else Singles(added)
  {
    assert (added + [value])[..|added|] == added;
  }

  lemma ReservoirStep<K>(samples: seq<K>, singles: seq<K>, v: K, draw: nat)
    requires |samples| == Min(CAPACITY, |singles|) && multiset(samples) <= multiset(singles)
    ensures var r := AddReservoir(samples, v, CAPACITY, draw);
            |r| == Min(CAPACITY, |singles + [v]|) && multiset(r) <= multiset(singles + [v])
  {
    var r := AddReservoir(samples, v, CAPACITY, draw);
    if |samples| >= CAPACITY {
      var idx := draw % |samples|;
      assert multiset(r) == multiset(samples)[samples[idx] := multiset(samples)[samples[idx]] - 1] + multiset{v};
    }
  }

  /** The newest element always enters, in a full reservoir at the expense of a drawn one. */
  lemma NewestIsSampled<K>(samples: seq<K>, v: K, capacity: nat, draw: nat)
    requires 1 <= capacity && |samples| <= capacity
    ensures v in AddReservoir(samples, v, capacity, draw)
    ensures |samples| == capacity ==> AddReservoir(samples, v, capacity, draw) == samples[draw % capacity := v]
  {
    var r := AddReservoir(samples, v, capacity, draw);
    assert r[if |samples| < capacity then |samples| else draw % capacity] == v;
  }

  lemma EmptyRepresents<K(!new)>()
    ensures Represents(Empty<K>(), [])
  {
  }

  /** Adding a tuple to the tree adds it to what the tree represents. */
  lemma {:induction false} InsertRepresents<K(!new)>(t: Trie<K>, added: seq<seq<K>>, value: seq<K>, draw: nat)
    requires Represents(t, added)
    ensures Represents(Insert(t, value, draw), added + [value])
    decreases |value|, 0
  {
    if |value| <= 1 {
      InsertShort(t, added, value, draw);
    } else {
      hide Below, Singles, Find, InsertKid, KidsRepresent, KeysOf, Heads;
      var more := added + [value];
      var r := Insert(t, value, draw);
      HeadsStep(added, value);
      InsertKidKeys(t.kids, value[0], value[1..], draw);
      assert value == [value[0]] + value[1..];
      InsertSamples(t, added, value, draw);
      InsertKidRepresents(t.kids, added, value[0], value[1..], draw);
      forall k | Below(more, k) != [] ensures Find(r.kids, k).Some? {
        BelowStep(added, value, k);
        FindInserted(t.kids, value[0], value[1..], draw, k);
      }
    }
  }

  lemma InsertShort<K(!new)>(t: Trie<K>, added: seq<seq<K>>, value: seq<K>, draw: nat)
    requires Represents(t, added) && |value| <= 1
    ensures Represents(Insert(t, value, draw), added + [value])
  {
    hide Below, Singles, Find, KidsRepresent, KeysOf, Heads;
    var more := added + [value];
    HeadsStep(added, value);
    InsertSamples(t, added, value, draw);
    forall k: K ensures Below(more, k) == Below(added, k) {
      BelowStep(added, value, k);
    }
    SameBelow(t.kids, added, more);
  }

  lemma InsertSamples<K>(t: Trie<K>, added: seq<seq<K>>, value: seq<K>, draw: nat)
    requires SamplesOk(t.samples, added)
    ensures SamplesOk(Insert(t, value, draw).samples, added + [value])
  {
    assert (added + [value])[..|added|] == added;
    if |value| == 1 {
      ReservoirStep(t.samples, Singles(added), value[0], draw);
    }
  }

  lemma {:induction false} SameBelow<K(!new)>(kids: Kids<K>, added: seq<seq<K>>, more: seq<seq<K>>)
    requires KidsRepresent(kids, added)
    requires forall k :: Find(kids, k).Some? ==> Below(more, k) == Below(added, k)
    ensures KidsRepresent(kids, more)
  {
    if kids.Kid? {
      assert Find(kids, kids.key).Some?;
      forall k | Find(kids.rest, k).Some? ensures Below(more, k) == Below(added, k) {
        assert Find(kids, k).Some?;
      }
      SameBelow(kids.rest, added, more);
    }
  }

  lemma {:induction false} InsertKidRepresents<K(!new)>(kids: Kids<K>, added: seq<seq<K>>, key: K, tail: seq<K>,
                                                 draw: nat)
    requires tail != [] && KidsRepresent(kids, added)
    requires Find(kids, key).None? ==> Below(added, key) == []
    ensures KidsRepresent(InsertKid(kids, key, tail, draw), added + [[key] + tail])
    decreases |tail|, 1, kids
  {
    hide Below;
    var value := [key] + tail;
    var more := added + [value];
    assert value[1..] == tail;
    BelowStep(added, value, key);
    match kids
    case NoKids =>
      EmptyRepresents<K>();
      InsertRepresents(Empty(), [], tail, draw);
      assert [] + [tail] == [tail];
    case Kid(k, sub, rest) =>
      BelowStep(added, value, k);
      if k == key {
        InsertRepresents(sub, Below(added, k), tail, draw);
        forall q | Find(rest, q).Some? ensures Below(more, q) == Below(added, q) {
          BelowStep(added, value, q);
        }
        SameBelow(rest, added, more);
      } else {
        InsertKidRepresents(rest, added, key, tail, draw);
        FindInserted(rest, key, tail, draw, k);
      }
  }

  lemma {:induction false} FindInserted<K>(kids: Kids<K>, key: K, tail: seq<K>, draw: nat, k: K)
    ensures Find(InsertKid(kids, key, tail, draw), k).Some? <==> k == key || Find(kids, k).Some?
    decreases kids
  {
    if kids.Kid? && kids.key != key { FindInserted(kids.rest, key, tail, draw, k); }
  }

  /** from_tuples represents its input, whatever the random draws. */
  lemma {:induction false} FromTuplesRepresents<K(!new)>(values: seq<seq<K>>, draws: seq<nat>)
    requires |draws| == |values|
    ensures Represents(FromTuples(values, draws), values)
  {
    if values == [] {
      EmptyRepresents<K>();
    } else {
      var n := |values| - 1;
      FromTuplesRepresents(values[..n], draws[..n]);
      InsertRepresents(FromTuples(values[..n], draws[..n]), values[..n], values[n], draws[n]);
      assert values[..n] + [values[n]] == values;
    }
  }

  // ------------------------------------------------------- the node at a path

  /** The tuple runs through the node at path p: every tuple through the root, otherwise the
      strictly longer ones with prefix p. */
  predicate Matches<K(==)>(tuple: seq<K>, p: seq<K>) {
    p == [] || (|p| < |tuple| && tuple[..|p|] == p)
  }

  /** What is left, below the node at p, of the tuples running through it. */
  function SuffixesAt<K(==)>(added: seq<seq<K>>, p: seq<K>): seq<seq<K>> {
    if added == [] then []
    else
      var last := added[|added| - 1];
      var front := SuffixesAt(added[..|added| - 1], p);
      if Matches(last, p) then front + [last[|p|..]] else front
  }

  function CountMatching<K(==)>(added: seq<seq<K>>, p: seq<K>): (n: nat)
    ensures n == |SuffixesAt(added, p)|
  {
    if added == [] then 0
    else CountMatching(added[..|added| - 1], p) + if Matches(added[|added| - 1], p) then 1 else 0
  }

  /** The tuples that end at the node at p, by a last element or, at the root, by being empty. */
  function CountEnding<K(==)>(added: seq<seq<K>>, p: seq<K>): nat {
    if added == [] then 0
    else
      var last := added[|added| - 1];
      CountEnding(added[..|added| - 1], p) + if Matches(last, p) && |last| <= |p| + 1 then 1 else 0
  }

  /** A tuple runs through the node at a proper path when it is that path with something after. */
  lemma MatchesIs<K>(tuple: seq<K>, p: seq<K>)
    ensures Matches(tuple, p) <==> p == [] || exists rest :: rest != [] && tuple == p + rest
    ensures EndsAt(tuple, p) <==> (p == [] && tuple == []) || exists last :: tuple == p + [last]
  {
    if p != [] && Matches(tuple, p) {
      assert tuple == p + tuple[|p|..] && tuple[|p|..] != [];
    }
    if EndsAt(tuple, p) && tuple != [] { assert tuple == p + [tuple[|p|]]; }
  }

  /** The counts of the specification are numbers of tuples. */
  lemma {:induction false} CountMatchingIs<K>(added: seq<seq<K>>, p: seq<K>)
    ensures CountMatching(added, p) == |set i | 0 <= i < |added| && Matches(added[i], p)|
  {
    hide Matches;
    var through := set i | 0 <= i < |added| && Matches(added[i], p);
    if added == [] {
      assert through == {};
    } else {
      var n := |added| - 1;
      var front := added[..n];
      CountMatchingIs(front, p);
      var before := set i | 0 <= i < |front| && Matches(front[i], p);
      hide CountMatching;
      assert through == if Matches(added[n], p) then before + {n} else before;
      assert n !in before;
    }
  }

  predicate EndsAt<K(==)>(tuple: seq<K>, p: seq<K>) {
    Matches(tuple, p) && |tuple| <= |p| + 1
  }

  lemma {:induction false} CountEndingIs<K>(added: seq<seq<K>>, p: seq<K>)
    ensures CountEnding(added, p) == |set i | 0 <= i < |added| && EndsAt(added[i], p)|
  {
    var ending := set i | 0 <= i < |added| && EndsAt(added[i], p);
    if added == [] {
      assert ending == {};
    } else {
      var n := |added| - 1;
      var front := added[..n];
      CountEndingIs(front, p);
      assert CountEnding(added, p) == CountEnding(front, p) + if EndsAt(added[n], p) then 1 else 0;
      hide EndsAt, CountEnding, Matches;
      var before := set i | 0 <= i < |front| && EndsAt(front[i], p);
      assert ending == if EndsAt(added[n], p) then before + {n} else before;
      assert n !in before;
    }
  }

  /** An element is among the last ones at p as often as p followed by it was added. */
  lemma {:induction false} LastsAre<K>(added: seq<seq<K>>, p: seq<K>, v: K)
    ensures multiset(LastsAt(added, p))[v] == multiset(added)[p + [v]]
  {
    if added != [] {
      var n := |added| - 1;
      var front, last := added[..n], added[n];
      LastsAre(front, p, v);
      assert added == front + [last];
      assert last == p + [v] <==> Matches(last, p) && |last| == |p| + 1 && last[|p|] == v by {
        if Matches(last, p) && |last| == |p| + 1 { assert last == last[..|p|] + [last[|p|]]; }
      }
    }
  }

  /** The last elements of the tuples one longer than p with prefix p. */
  function LastsAt<K(==)>(added: seq<seq<K>>, p: seq<K>): seq<K> {
    if added == [] then []
    else
      var last := added[|added| - 1];
      var front := LastsAt(added[..|added| - 1], p);
      if Matches(last, p) && |last| == |p| + 1 then front + [last[|p|]] else front
  }

  lemma {:induction false} SuffixesBelow<K>(added: seq<seq<K>>, k: K, q: seq<K>)
    ensures SuffixesAt(added, [k] + q) == SuffixesAt(Below(added, k), q)
  {
    if added != [] {
      var front, last := added[..|added| - 1], added[|added| - 1];
      var p := [k] + q;
      SuffixesBelow(front, k, q);
      if |last| >= 2 && last[0] == k {
        var tail := last[1..];
        assert last == [k] + tail;
        if |p| <= |last| { assert last[..|p|] == [k] + tail[..|q|]; assert p[1..] == q; }
        assert Matches(last, p) <==> Matches(tail, q);
        assert Matches(last, p) ==> last[|p|..] == tail[|q|..];
        assert (Below(front, k) + [tail])[..|Below(front, k)|] == Below(front, k);
      } else {
        if |p| <= |last| { assert last[..|p|][0] == last[0]; }
      }
    }
  }

  lemma {:induction false} SuffixesOfRoot<K>(added: seq<seq<K>>)
    ensures SuffixesAt(added, []) == added
  {
    if added != [] { SuffixesOfRoot(added[..|added| - 1]); }
  }

  lemma {:induction false} FindRepresents<K(!new)>(kids: Kids<K>, added: seq<seq<K>>, k: K)
    requires KidsRepresent(kids, added) && Find(kids, k).Some?
    ensures Below(added, k) != [] && Represents(Find(kids, k).value, Below(added, k))
  {
    if kids.key != k { FindRepresents(kids.rest, added, k); }
  }

  /** The node at p represents exactly what runs through it, and exists when something does. */
  lemma {:induction false} NodeRepresents<K(!new)>(t: Trie<K>, added: seq<seq<K>>, p: seq<K>)
    requires Represents(t, added)
    ensures At(t, p).Some? <==> p == [] || SuffixesAt(added, p) != []
    ensures At(t, p).Some? ==> Represents(At(t, p).value, SuffixesAt(added, p))
    decreases |p|
  {
    hide Below, Find;
    if p == [] {
      SuffixesOfRoot(added);
    } else {
      var k, q := p[0], p[1..];
      assert p == [k] + q;
      SuffixesBelow(added, k, q);
      if Find(t.kids, k).Some? {
        FindRepresents(t.kids, added, k);
        NodeRepresents(Find(t.kids, k).value, Below(added, k), q);
        if q == [] { SuffixesOfRoot(Below(added, k)); }
      } else {
        assert Below(added, k) == [];
      }
    }
  }

  // --------------------------------------------------------------- own count

  /** The tuples that go on to one of these children. */
  function Through<K(==)>(added: seq<seq<K>>, kids: Kids<K>): nat {
    if added == [] then 0
    else
      var last := added[|added| - 1];
      Through(added[..|added| - 1], kids) + if |last| >= 2 && Find(kids, last[0]).Some? then 1 else 0
  }

  lemma {:induction false} ThroughKid<K>(added: seq<seq<K>>, k: K, sub: Trie<K>, rest: Kids<K>)
    requires Find(rest, k).None?
    ensures Through(added, Kid(k, sub, rest)) == |Below(added, k)| + Through(added, rest)
  {
    if added != [] { ThroughKid(added[..|added| - 1], k, sub, rest); }
  }

  lemma {:induction false} KidCountsThrough<K(!new)>(kids: Kids<K>, added: seq<seq<K>>)
    requires KidsRepresent(kids, added)
    ensures KidCounts(kids) == Through(added, kids)
  {
    match kids
    case NoKids => ThroughNone(added, kids);
    case Kid(k, sub, rest) =>
      KidCountsThrough(rest, added);
      ThroughKid(added, k, sub, rest);
  }

  lemma {:induction false} ThroughNone<K>(added: seq<seq<K>>, kids: Kids<K>)
    requires kids.NoKids?
    ensures Through(added, kids) == 0
  {
    if added != [] { ThroughNone(added[..|added| - 1], kids); }
  }

  lemma {:induction false} LongTuplesGoThrough<K(!new)>(added: seq<seq<K>>, kids: Kids<K>)
    requires forall i :: 0 <= i < |added| && |added[i]| >= 2 ==> Find(kids, added[i][0]).Some?
    ensures |added| == Through(added, kids) + CountEnding(added, [])
  {
    if added != [] { LongTuplesGoThrough(added[..|added| - 1], kids); }
  }

  lemma {:induction false} BelowHas<K>(added: seq<seq<K>>, i: nat)
    requires i < |added| && |added[i]| >= 2
    ensures added[i][1..] in Below(added, added[i][0])
  {
    if i < |added| - 1 { BelowHas(added[..|added| - 1], i); }
  }

  /** own_count is the number of tuples ending at the node. */
  lemma OwnCountIs<K(!new)>(t: Trie<K>, added: seq<seq<K>>)
    requires Represents(t, added)
    ensures OwnCount(t) == CountEnding(added, [])
  {
    hide Below, Through, Find;
    forall i | 0 <= i < |added| && |added[i]| >= 2 ensures Find(t.kids, added[i][0]).Some? {
      BelowHas(added, i);
    }
    LongTuplesGoThrough(added, t.kids);
    KidCountsThrough(t.kids, added);
  }

  lemma {:induction false} EndingSuffixes<K>(added: seq<seq<K>>, p: seq<K>)
    ensures CountEnding(SuffixesAt(added, p), []) == CountEnding(added, p)
    ensures Singles(SuffixesAt(added, p)) == LastsAt(added, p)
  {
    if added != [] {
      var front, last := added[..|added| - 1], added[|added| - 1];
      var s := SuffixesAt(front, p);
      EndingSuffixes(front, p);
      if Matches(last, p) {
        assert (s + [last[|p|..]])[..|s|] == s;
      }
    }
  }

  /** What every node of a tree built by from_tuples says about the tuples added. */
  lemma NodeMeaning<K(!new)>(values: seq<seq<K>>, draws: seq<nat>, p: seq<K>)
    requires |draws| == |values|
    ensures var n := At(FromTuples(values, draws), p);
            && (n.Some? <==> p == [] || CountMatching(values, p) > 0)
            && (n.Some? ==>
                  && n.value.count == CountMatching(values, p)
                  && OwnCount(n.value) == CountEnding(values, p) >= 0
                  && KidCounts(n.value.kids) <= n.value.count
                  && |n.value.samples| == (if |LastsAt(values, p)| <= 10 then |LastsAt(values, p)| else 10)
                  && multiset(n.value.samples) <= multiset(LastsAt(values, p))
                  && KeysOf(n.value.kids) == Heads(SuffixesAt(values, p)))
  {
    hide Represents, SuffixesAt, Heads, KeysOf;
    var t := FromTuples(values, draws);
    FromTuplesRepresents(values, draws);
    NodeRepresents(t, values, p);
    if At(t, p).Some? {
      NodeFacts(At(t, p).value, SuffixesAt(values, p));
      EndingSuffixes(values, p);
    }
  }

  lemma NodeFacts<K(!new)>(n: Trie<K>, added: seq<seq<K>>)
    requires Represents(n, added)
    ensures n.count == |added| && SamplesOk(n.samples, added)
    ensures OwnCount(n) == CountEnding(added, []) && KidCounts(n.kids) <= n.count
    ensures KeysOf(n.kids) == Heads(added)
  {
    hide KidsRepresent;
    OwnCountIs(n, added);
  }

  // -------------------------------------------------------------------- depth

  /** d is the greatest length less one, floored at zero. */
  ghost predicate IsLongest<K>(added: seq<seq<K>>, d: nat) {
    && (forall i :: 0 <= i < |added| ==> |added[i]| <= d + 1)
    && (d > 0 ==> exists i :: 0 <= i < |added| && |added[i]| == d + 1)
  }

  /** depth measures the longest tuple. */
  lemma {:induction false} DepthIsLongest<K(!new)>(t: Trie<K>, added: seq<seq<K>>)
    requires Represents(t, added)
    ensures IsLongest(added, Depth(t))
    decreases t, 0
  {
    hide Below, SamplesOk;
    forall i | 0 <= i < |added| ensures |added[i]| <= Depth(t) + 1 {
      if |added[i]| >= 2 {
        BelowHas(added, i);
        KidsDepthAtLeast(t.kids, added, added[i][0], added[i][1..]);
      }
    }
    if t.kids.Kid? {
      var i := KidsDepthReached(t.kids, added);
    }
  }

  lemma {:induction false} KidsDepthAtLeast<K(!new)>(kids: Kids<K>, added: seq<seq<K>>, k: K, tail: seq<K>)
    requires KidsRepresent(kids, added) && Find(kids, k).Some? && tail in Below(added, k)
    ensures |tail| <= KidsDepth(kids) + 1
    decreases kids, 1
  {
    if kids.key == k {
      DepthIsLongest(kids.sub, Below(added, k));
    } else {
      KidsDepthAtLeast(kids.rest, added, k, tail);
    }
  }

  lemma {:induction false} KidsDepthReached<K(!new)>(kids: Kids<K>, added: seq<seq<K>>) returns (i: nat)
    requires KidsRepresent(kids, added) && kids.Kid?
    ensures i < |added| && |added[i]| == KidsDepth(kids) + 2
    decreases kids, 1
  {
    hide Below;
    if kids.rest.Kid? && KidsDepth(kids.rest) >= Depth(kids.sub) {
      i := KidsDepthReached(kids.rest, added);
    } else {
      var below := Below(added, kids.key);
      DepthIsLongest(kids.sub, below);
      BelowAreNonEmpty(added, kids.key);
      var j := 0;
      if Depth(kids.sub) > 0 {
        j :| 0 <= j < |below| && |below[j]| == Depth(kids.sub) + 1;
      }
      i := BelowComesFrom(added, kids.key, j);
    }
  }

  lemma {:induction false} BelowAreNonEmpty<K>(added: seq<seq<K>>, k: K)
    ensures forall j :: 0 <= j < |Below(added, k)| ==> Below(added, k)[j] != []
  {
    if added != [] { BelowAreNonEmpty(added[..|added| - 1], k); }
  }

  lemma {:induction false} BelowComesFrom<K>(added: seq<seq<K>>, k: K, j: nat) returns (i: nat)
    requires j < |Below(added, k)|
    ensures i < |added| && |added[i]| == |Below(added, k)[j]| + 1
  {
    var front := added[..|added| - 1];
    if j < |Below(front, k)| {
      i := BelowComesFrom(front, k, j);
    } else {
      i := |added| - 1;
    }
  }

  /** depth of a tree built by from_tuples. */
  lemma TreeDepth<K(!new)>(values: seq<seq<K>>, draws: seq<nat>)
    requires |draws| == |values|
    ensures IsLongest(values, Depth(FromTuples(values, draws)))
  {
    FromTuplesRepresents(values, draws);
    DepthIsLongest(FromTuples(values, draws), values);
  }
}
