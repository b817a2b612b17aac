/** Python's dict as a value: keys in insertion order, each once, with their values. */
module OrderedDict {

  datatype Dict<K, V> = Dict(keys: seq<K>, vals: map<K, V>)

  predicate Distinct<K(==)>(s: seq<K>) {
    forall i, j :: 0 <= i < j < |s| ==> s[i] != s[j]
  }

  ghost predicate Valid<K, V>(d: Dict<K, V>) {
    && Distinct(d.keys)
    && d.vals.Keys == (set k | k in d.keys)
  }

  function Empty<K, V>(): Dict<K, V> { Dict([], map[]) }

  /** Assignment: an existing key keeps its place, a new one goes last. */
  function Put<K(==), V>(d: Dict<K, V>, k: K, v: V): Dict<K, V> {
    Dict(if k in d.vals then d.keys else d.keys + [k], d.vals[k := v])
  }

  lemma PutValid<K, V>(d: Dict<K, V>, k: K, v: V)
    requires Valid(d)
    ensures Valid(Put(d, k, v))
  {
    if k !in d.vals {
      assert Put(d, k, v).keys[|d.keys|] == k;
    }
  }

  /** The values in key order. */
  function Values<K(==), V>(d: Dict<K, V>): (r: seq<V>)
    requires forall i :: 0 <= i < |d.keys| ==> d.keys[i] in d.vals
    ensures |r| == |d.keys|
    ensures forall i :: 0 <= i < |r| ==> r[i] == d.vals[d.keys[i]]
  {
    seq(|d.keys|, i requires 0 <= i < |d.keys| => d.vals[d.keys[i]])
  }

  // ---------------------------------------------------- grouping by a key

  /** What a loop of grouped[key].append(v) over the labelled items leaves in a defaultdict(list). */
  function Group<K(==), V>(items: seq<(K, V)>): (d: Dict<K, seq<V>>)
    ensures forall i :: 0 <= i < |d.keys| ==> d.keys[i] in d.vals
  {
    if items == [] then Empty()
    else Append(Group(items[..|items| - 1]), items[|items| - 1])
  }

  function Append<K(==), V>(d: Dict<K, seq<V>>, item: (K, V)): Dict<K, seq<V>> {
    Put(d, item.0, (if item.0 in d.vals then d.vals[item.0] else []) + [item.1])
  }

  /** The values labelled k, in order: the reference meaning of one group. */
  function Select<K(==), V>(items: seq<(K, V)>, k: K): (r: seq<V>) {
    if items == [] then []
    else
      var front, last := Select(items[..|items| - 1], k), items[|items| - 1];
      if last.0 == k then front + [last.1] else front
  }

  lemma SelectAppend<K, V>(front: seq<(K, V)>, last: (K, V), k: K)
    ensures Select(front + [last], k) == if last.0 == k then Select(front, k) + [last.1] else Select(front, k)
  {
    assert (front + [last])[..|front|] == front;
  }

  /** Position of the first item labelled k, or |items|. */
  function FirstIndex<K(==), V>(items: seq<(K, V)>, k: K): (i: nat)
    ensures i <= |items|
    ensures i < |items| ==> items[i].0 == k
    ensures forall j :: 0 <= j < i ==> items[j].0 != k
  {
    if items == [] then 0
    else if items[0].0 == k then 0
    else 1 + FirstIndex(items[1..], k)
  }

  lemma GroupStep<K, V>(items: seq<(K, V)>, i: nat)
    requires i < |items|
    ensures Group(items[..i + 1]) == Append(Group(items[..i]), items[i])
  {
    assert items[..i + 1][..i] == items[..i];
  }

  lemma GroupNone<K, V>(items: seq<(K, V)>)
    requires items == []
    ensures Group(items) == Empty()
  {
  }

  lemma FirstIndexIs<K, V>(items: seq<(K, V)>, k: K, i: nat)
    requires i < |items| && items[i].0 == k
    requires forall j :: 0 <= j < i ==> items[j].0 != k
    ensures FirstIndex(items, k) == i
  {
  }

  /** Appending an item moves no label's first occurrence. */
  lemma FirstIndexAppend<K, V>(front: seq<(K, V)>, last: (K, V), k: K)
    ensures FirstIndex(front, k) < |front| ==> FirstIndex(front + [last], k) == FirstIndex(front, k)
    ensures FirstIndex(front, k) == |front| ==>
              FirstIndex(front + [last], k) == (if last.0 == k then |front| else |front| + 1)
  {
    var i := FirstIndex(front, k);
    if i < |front| || last.0 == k { FirstIndexIs(front + [last], k, i); }
  }

  /** Grouping is a stable partition: every label once, in first-occurrence order,
      each with exactly its own values in their original order. */
  lemma {:induction false} GroupIsStablePartition<K, V>(items: seq<(K, V)>)
    ensures Valid(Group(items))
    ensures forall k :: k in Group(items).vals <==> FirstIndex(items, k) < |items|
    ensures forall k :: k in Group(items).vals ==> Group(items).vals[k] == Select(items, k)
    ensures forall i, j :: 0 <= i < j < |Group(items).keys| ==>
              FirstIndex(items, Group(items).keys[i]) < FirstIndex(items, Group(items).keys[j])
  {
    if items != [] {
      var front, last := items[..|items| - 1], items[|items| - 1];
      assert items == front + [last];
      GroupIsStablePartition(front);
      var d := Group(front);
      PutValid(d, last.0, Group(items).vals[last.0]);
      forall k ensures k in Group(items).vals <==> FirstIndex(items, k) < |items| {
        FirstIndexAppend(front, last, k);
      }
      if last.0 !in d.vals { SelectFresh(front, last.0); }
      GroupOrder(front, last);
    }
  }

  lemma GroupOrder<K, V>(front: seq<(K, V)>, last: (K, V))
    requires Valid(Group(front))
    requires forall k :: k in Group(front).vals <==> FirstIndex(front, k) < |front|
    requires forall i, j :: 0 <= i < j < |Group(front).keys| ==>
              FirstIndex(front, Group(front).keys[i]) < FirstIndex(front, Group(front).keys[j])
    ensures var keys := Append(Group(front), last).keys;
            forall i, j :: 0 <= i < j < |keys| ==>
                FirstIndex(front + [last], keys[i]) < FirstIndex(front + [last], keys[j])
  {
    hide FirstIndex, Group;
    var d := Group(front);
    var keys := Append(d, last).keys;
    forall i, j | 0 <= i < j < |keys|
      ensures FirstIndex(front + [last], keys[i]) < FirstIndex(front + [last], keys[j])
    {
      assert keys[i] == d.keys[i] && d.keys[i] in d.vals;
      FirstIndexAppend(front, last, keys[i]);
      FirstIndexAppend(front, last, keys[j]);
      if j < |d.keys| {
        assert keys[j] == d.keys[j] && d.keys[j] in d.vals;
      }
    }
  }

  lemma {:induction false} SelectFresh<K, V>(items: seq<(K, V)>, k: K)
    requires forall j :: 0 <= j < |items| ==> items[j].0 != k
    ensures Select(items, k) == []
  {
    if items != [] { SelectFresh(items[..|items| - 1], k); }
  }
}
