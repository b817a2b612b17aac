/** How group_into_dict, count and the two uniq_by functions relate: for one key function all
    of them are views of the same stable partition. */
module Grouping {
  import opened Stages
  import opened OrderedDict
  import Chain = IteratorChain

  /** The dict comprehension of uniq_by.py: later items overwrite earlier ones in place. */
  function Keyed(values: seq<Value>, key: Value -> Value): Dict<Value, Value> {
    if values == [] then Empty()
    else
      var last := values[|values| - 1];
      Put(Keyed(values[..|values| - 1], key), key(last), last)
  }

  /** count: a defaultdict(int) incremented once per value. */
  method Count(values: seq<Value>) returns (counts: Dict<Value, nat>)
    ensures counts == Counted(values)
  {
    counts := Empty();
    for i := 0 to |values|
      invariant counts == Counted(values[..i])
    {
      assert values[..i + 1][..i] == values[..i];
      var v := values[i];
      counts := Put(counts, v, (if v in counts.vals then counts.vals[v] else 0) + 1);
    }
    assert values[..|values|] == values;
  }

  function Counted(values: seq<Value>): Dict<Value, nat> {
    if values == [] then Empty()
    else
      var counts, last := Counted(values[..|values| - 1]), values[|values| - 1];
      Put(counts, last, (if last in counts.vals then counts.vals[last] else 0) + 1)
  }

  function Groups(values: seq<Value>, key: Value -> Value): Dict<Value, seq<Value>> {
    Group(Chain.Labelled(values, key))
  }

  lemma GroupsStep(values: seq<Value>, key: Value -> Value)
    ensures values == [] ==> Groups(values, key) == Empty()
    ensures values != [] ==>
            var last := values[|values| - 1];
            Groups(values, key) == Append(Groups(values[..|values| - 1], key), (key(last), last))
  {
    if values != [] {
      var n := |values| - 1;
      var all := Chain.Labelled(values, key);
      assert all[..n] == Chain.Labelled(values[..n], key);
      assert all[n] == (key(values[n]), values[n]);
    }
  }

  /** Every key has a group, and no group is empty. */
  lemma {:induction false} GroupsAreInhabited(values: seq<Value>, key: Value -> Value)
    ensures Valid(Groups(values, key))
    ensures forall k :: k in Groups(values, key).vals <==> exists v :: v in values && key(v) == k
    ensures forall k :: k in Groups(values, key).vals ==> Groups(values, key).vals[k] != []
  {
    hide Groups;
    if values == [] {
      GroupsStep(values, key);
    } else {
      var front, last := values[..|values| - 1], values[|values| - 1];
      GroupsAreInhabited(front, key);
      GroupsStep(values, key);
      PutValid(Groups(front, key), key(last), Groups(values, key).vals[key(last)]);
      assert values == front + [last];
    }
  }

  /** group_into_dict partitions the values stably: a value's group holds exactly the values
      with its key, in order, and the keys come in first-occurrence order. */
  lemma GroupsPartition(values: seq<Value>, key: Value -> Value, k: Value)
    ensures k in Groups(values, key).vals ==> Groups(values, key).vals[k] == Kept(values, v => key(v) == k)
    ensures k !in Groups(values, key).vals ==> Kept(values, v => key(v) == k) == []
    ensures Groups(values, key).keys == Eager(UniqBy(v => v), Eager(Map(key), values))
  {
    hide Groups, Kept, Heads;
    GroupIsSelected(values, key, k);
    SelectIsKept(values, key, k);
    KeysInOrder(values, key);
  }

  lemma GroupIsSelected(values: seq<Value>, key: Value -> Value, k: Value)
    ensures k in Groups(values, key).vals ==> Groups(values, key).vals[k] == Select(Chain.Labelled(values, key), k)
    ensures k !in Groups(values, key).vals ==> Select(Chain.Labelled(values, key), k) == []
  {
    hide Group, Select, FirstIndex;
    GroupIsStablePartition(Chain.Labelled(values, key));
    if k !in Groups(values, key).vals {
      SelectFresh(Chain.Labelled(values, key), k);
    }
  }

  lemma {:induction false} KeptAppend(front: seq<Value>, last: Value, pred: Value -> bool)
    ensures Kept(front + [last], pred) == if pred(last) then Kept(front, pred) + [last] else Kept(front, pred)
    decreases |front|
  {
    if front == [] {
      assert [last][1..] == [];
    } else {
      assert (front + [last])[1..] == front[1..] + [last];
      KeptAppend(front[1..], last, pred);
    }
  }

  lemma {:induction false} SelectIsKept(values: seq<Value>, key: Value -> Value, k: Value)
    ensures Select(Chain.Labelled(values, key), k) == Kept(values, v => key(v) == k)
    decreases |values|
  {
    if values != [] {
      var n := |values| - 1;
      var front, last := values[..n], values[n];
      assert front + [last] == values;
      SelectIsKept(front, key, k);
      assert Chain.Labelled(values, key)[..n] == Chain.Labelled(front, key);
      KeptAppend(front, last, v => key(v) == k);
    }
  }

  lemma {:induction false} KeysInOrder(values: seq<Value>, key: Value -> Value)
    ensures Groups(values, key).keys == Heads(Eager(Map(key), values), v => v)
  {
    hide Groups;
    if values == [] {
      GroupsStep(values, key);
    } else {
      var n := |values| - 1;
      var front, last := values[..n], values[n];
      var mapped := Eager(Map(key), values);
      KeysInOrder(front, key);
      GroupsStep(values, key);
      GroupsAreInhabited(front, key);
      assert mapped[..n] == Eager(Map(key), front);
      MappedMembers(front, key, key(last));
    }
  }

  lemma MappedMembers(values: seq<Value>, key: Value -> Value, k: Value)
    ensures k in Eager(Map(key), values) <==> exists v :: v in values && key(v) == k
  {
    var mapped := Eager(Map(key), values);
    if v :| v in values && key(v) == k {
      var i :| 0 <= i < |values| && values[i] == v;
      assert mapped[i] == k;
    }
    if k in mapped {
      var i :| 0 <= i < |mapped| && mapped[i] == k;
      assert values[i] in values;
    }
  }

  function FirstOf(d: Dict<Value, seq<Value>>): (r: seq<Value>)
    requires forall i :: 0 <= i < |d.keys| ==> d.keys[i] in d.vals && d.vals[d.keys[i]] != []
  {
    seq(|d.keys|, i requires 0 <= i < |d.keys| => d.vals[d.keys[i]][0])
  }

  function LastOf(d: Dict<Value, seq<Value>>): (r: seq<Value>)
    requires forall i :: 0 <= i < |d.keys| ==> d.keys[i] in d.vals && d.vals[d.keys[i]] != []
  {
    seq(|d.keys|, i requires 0 <= i < |d.keys| => var g := d.vals[d.keys[i]]; g[|g| - 1])
  }

  lemma FirstsStep(d: Dict<Value, seq<Value>>, k: Value, v: Value)
    requires Valid(d) && forall g :: g in d.vals ==> d.vals[g] != []
    ensures FirstOf(Append(d, (k, v))) == if k in d.vals then FirstOf(d) else FirstOf(d) + [v]
  {
    var d' := Append(d, (k, v));
    forall i | 0 <= i < |d.keys| ensures d'.vals[d'.keys[i]][0] == d.vals[d.keys[i]][0] {
      assert d.keys[i] in d.vals;
    }
  }

  /** The heads of the groups are what the chain's uniq_by keeps. */
  lemma {:induction false} GroupHeadsAreChainUniqBy(values: seq<Value>, key: Value -> Value)
    ensures Valid(Groups(values, key))
    ensures forall k :: k in Groups(values, key).vals ==> Groups(values, key).vals[k] != []
    ensures FirstOf(Groups(values, key)) == Eager(UniqBy(key), values)
  {
    hide Groups, Valid;
    GroupsAreInhabited(values, key);
    if values == [] {
      GroupsStep(values, key);
    } else {
      var front, last := values[..|values| - 1], values[|values| - 1];
      GroupHeadsAreChainUniqBy(front, key);
      GroupsStep(values, key);
      GroupsAreInhabited(front, key);
      FirstsStep(Groups(front, key), key(last), last);
    }
  }

  /** The standalone uniq_by keeps the last value of each group, in the order of the firsts. */
  lemma GroupLastsAreUniqBy(values: seq<Value>, key: Value -> Value)
    ensures Valid(Keyed(values, key)) && Valid(Groups(values, key))
    ensures forall k :: k in Groups(values, key).vals ==> Groups(values, key).vals[k] != []
    ensures Values(Keyed(values, key)) == LastOf(Groups(values, key))
  {
    hide Groups, Keyed;
    GroupsAreInhabited(values, key);
    KeyedIsLasts(values, key);
  }

  /** u holds the last value of every group of d, in the same order. */
  ghost predicate AreLasts(u: Dict<Value, Value>, d: Dict<Value, seq<Value>>) {
    && u.keys == d.keys && u.vals.Keys == d.vals.Keys
    && forall k :: k in d.vals ==> d.vals[k] != [] && u.vals[k] == d.vals[k][|d.vals[k]| - 1]
  }

  lemma LastsStep(u: Dict<Value, Value>, d: Dict<Value, seq<Value>>, k: Value, v: Value)
    requires AreLasts(u, d)
    ensures AreLasts(Put(u, k, v), Append(d, (k, v)))
  {
    var u', d' := Put(u, k, v), Append(d, (k, v));
    assert u'.vals.Keys == d'.vals.Keys == d.vals.Keys + {k};
    var g := d'.vals[k];
    assert g[|g| - 1] == v == u'.vals[k];
    forall x | x in d'.vals && x != k ensures u'.vals[x] == u.vals[x] && d'.vals[x] == d.vals[x] && x in d.vals {}
  }

  lemma {:induction false} KeyedIsLasts(values: seq<Value>, key: Value -> Value)
    ensures AreLasts(Keyed(values, key), Groups(values, key))
  {
    assert AreLasts(Empty(), Empty());
    hide Groups, AreLasts;
    if values == [] {
      GroupsStep(values, key);
    } else {
      var n := |values| - 1;
      KeyedIsLasts(values[..n], key);
      GroupsStep(values, key);
      LastsStep(Keyed(values[..n], key), Groups(values[..n], key), key(values[n]), values[n]);
    }
  }

  /** The sizes of the groups are the counts of the mapped keys. */
  lemma {:induction false} GroupLengthsAreCounts(values: seq<Value>, key: Value -> Value)
    ensures var d, counts := Groups(values, key), Counted(Eager(Map(key), values));
            && counts.keys == d.keys && counts.vals.Keys == d.vals.Keys
            && forall k :: k in d.vals ==> counts.vals[k] == |d.vals[k]|
  {
    hide Groups;
    var mapped := Eager(Map(key), values);
    if values == [] {
      GroupsStep(values, key);
    } else {
      var n := |values| - 1;
      GroupLengthsAreCounts(values[..n], key);
      GroupsStep(values, key);
      assert mapped[..n] == Eager(Map(key), values[..n]);
    }
  }

  /** count gives every value its number of occurrences and nothing else. */
  lemma {:induction false} CountedIsMultiplicity(values: seq<Value>)
    ensures Valid(Counted(values))
    ensures forall v :: v in Counted(values).vals <==> v in values
    ensures forall v :: v in values ==> Counted(values).vals[v] == multiset(values)[v]
  {
    if values != [] {
      var front, last := values[..|values| - 1], values[|values| - 1];
      assert values == front + [last];
      CountedIsMultiplicity(front);
      PutValid(Counted(front), last, Counted(values).vals[last]);
    }
  }
}
