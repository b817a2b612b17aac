/** prefix_counter.py's PrefixCounter: a tree of objects updated in place, each carrying the
    Trie value it stands for. */
module PrefixCounter {
  import opened Options
  import opened Trie
  import T = Trie
  import Treemap
  import OrderedDict

  /** The children as a value, in insertion order. */
  function KidsOf<K(==)>(keys: seq<K>, subs: map<K, Trie<K>>): Kids<K>
    requires forall k :: k in keys ==> k in subs
  {
    if keys == [] then NoKids else Kid(keys[0], subs[keys[0]], KidsOf(keys[1..], subs))
  }

  lemma {:induction false} KidsOfSame<K>(keys: seq<K>, subs: map<K, Trie<K>>, subs': map<K, Trie<K>>)
    requires forall k :: k in keys ==> k in subs && k in subs' && subs[k] == subs'[k]
    ensures KidsOf(keys, subs) == KidsOf(keys, subs')
  {
    if keys != [] { KidsOfSame(keys[1..], subs, subs'); }
  }

  /** Adding to the child under key, new or not, is one InsertKid. */
  lemma {:induction false} KidsOfInsert<K>(keys: seq<K>, subs: map<K, Trie<K>>, key: K, tail: seq<K>, draw: nat)
    requires OrderedDict.Distinct(keys) && forall k :: k in keys ==> k in subs
    ensures key in keys ==>
              KidsOf(keys, subs[key := Insert(subs[key], tail, draw)]) == InsertKid(KidsOf(keys, subs), key, tail, draw)
    ensures key !in keys ==>
              KidsOf(keys + [key], subs[key := Insert(Empty(), tail, draw)]) ==
              InsertKid(KidsOf(keys, subs), key, tail, draw)
  {
    hide Insert;
    if keys != [] {
      KidsOfInsert(keys[1..], subs, key, tail, draw);
      assert keys[0] !in keys[1..];
      if keys[0] == key {
        KidsOfSame(keys[1..], subs, subs[key := Insert(subs[key], tail, draw)]);
      } else if key !in keys {
        assert (keys + [key])[1..] == keys[1..] + [key];
      }
    }
  }

  lemma KidsOfAdded<K>(keys: seq<K>, subs: map<K, Trie<K>>, keys': seq<K>, subs': map<K, Trie<K>>, key: K,
                       tail: seq<K>, draw: nat)
    requires OrderedDict.Distinct(keys) && (forall k :: k in keys ==> k in subs) && (key in subs <==> key in keys)
    requires keys' == if key in subs then keys else keys + [key]
    requires subs' == subs[key := Insert(if key in subs then subs[key] else Empty(), tail, draw)]
    ensures forall k :: k in keys' ==> k in subs'
    ensures KidsOf(keys', subs') == InsertKid(KidsOf(keys, subs), key, tail, draw)
  {
    hide Insert;
    KidsOfInsert(keys, subs, key, tail, draw);
  }

  class PrefixCounter<K(==)> {
    var keys: seq<K>                          // insertion order of the children dictionary
    var children: map<K, PrefixCounter<K>>
    var count: nat
    var prefix: Option<K>
    var leafSamples: seq<K>
    ghost var Repr: set<object>
    ghost var tree: Trie<K>

    ghost function Subs(): map<K, Trie<K>>
      reads this, children.Values
    {
      map k | k in children :: children[k].tree
    }

    /** The children carry their keys and are valid trees of their own objects, apart from each
        other and this one. */
    ghost predicate Shape()
      reads this, Repr
      ensures Shape() ==> this in Repr
      decreases Repr, 0
    {
      && this in Repr
      && OrderedDict.Distinct(keys) && children.Keys == (set k | k in keys)
      && (forall k :: k in children ==>
            children[k] in Repr && children[k].Repr <= Repr && this !in children[k].Repr && children[k].Valid())
      && (forall j, k :: j in children && k in children && j != k ==> children[j].Repr !! children[k].Repr)
      && (forall k :: k in children ==> children[k].prefix == Some(k))
    }

    ghost predicate Valid()
      reads this, Repr
      ensures Valid() ==> this in Repr
      decreases Repr, 1
    {
      Shape() && tree == Trie(count, leafSamples, KidsOf(keys, Subs()))
    }

    lemma Unfold()
      requires Valid()
      ensures Shape() && tree == Trie(count, leafSamples, KidsOf(keys, Subs()))
    {
    }

    lemma Fold()
      requires Shape() && tree == Trie(count, leafSamples, KidsOf(keys, Subs()))
      ensures Valid()
    {
    }

    constructor (prefix: Option<K>)
      ensures Valid() && fresh(Repr) && tree == Empty() && this.prefix == prefix
    {
      this.prefix := prefix;
      keys, children, count, leafSamples := [], map[], 0, [];
      Repr := {this};
      tree := Empty();
    }

    /** Counting a tuple in this node and, element by element, below it. */
    method Add(value: seq<K>) returns (ghost draw: nat)
      requires Valid()
      modifies Repr
      ensures Valid() && fresh(Repr - old(Repr)) && prefix == old(prefix)
      ensures tree == Insert(old(tree), value, draw)
      decreases |value|, 0
    {
      hide KidsOf, InsertKid, AddReservoir, Valid, OrderedDict.Distinct;
      Unfold();
      ghost var subs := Subs();
      count := count + 1;
      assert Subs() == subs;
      draw := 0;
      if |value| == 0 {
        tree := tree.(count := count);
        assert Subs() == subs;
        Fold();
        return;
      } else if |value| == 1 {
        leafSamples, draw := AddToReservoir(leafSamples, value[0], CAPACITY);
        tree := tree.(count := count, samples := leafSamples);
        assert Subs() == subs;
        Fold();
        return;
      }
      draw := AddBelow(value[0], value[1..]);
    }

    /** The last lines of add: create the child when it is missing, then add the tail to it. */
    method AddBelow(head: K, tail: seq<K>) returns (ghost draw: nat)
      requires Shape() && tail != [] && (forall k :: k in keys ==> k in Subs()) && tree.kids == KidsOf(keys, Subs())
      modifies Repr
      ensures Valid() && fresh(Repr - old(Repr)) && prefix == old(prefix)
      ensures tree == Trie(old(count), old(leafSamples), InsertKid(old(tree).kids, head, tail, draw))
      decreases |tail|, 2
    {
      hide KidsOf, InsertKid, Insert, Valid, Shape;
      ShapeKeys();
      ghost var keys0, subs0 := keys, Subs();
      if head !in children {
        var child := new PrefixCounter<K>(Some(head));
        Attach(head, child);
      }
      draw := AddToChild(head, tail);
      KidsOfAdded(keys0, subs0, keys, Subs(), head, tail, draw);
      Refresh();
    }

    lemma ShapeKeys()
      requires Shape()
      ensures OrderedDict.Distinct(keys) && Subs().Keys == children.Keys && forall k :: k in keys <==> k in Subs()
    {
    }

    /** Bring the ghost value in line with the fields. */
    ghost method Refresh()
      requires Shape()
      modifies this`tree
      ensures Valid() && (forall k :: k in keys ==> k in old(Subs()))
      ensures tree == Trie(count, leafSamples, KidsOf(keys, old(Subs())))
    {
      hide KidsOf, Valid;
      ghost var subs := Subs();
      tree := Trie(count, leafSamples, KidsOf(keys, Subs()));
      assert Subs() == subs;
      Fold();
    }

    lemma DistinctSnoc(keys: seq<K>, key: K)
      requires OrderedDict.Distinct(keys) && key !in keys
      ensures OrderedDict.Distinct(keys + [key])
    {
    }

    method Attach(head: K, child: PrefixCounter<K>)
      requires Shape() && head !in children && child.Valid() && child.tree == Empty() && child.Repr !! Repr
      requires child.prefix == Some(head)
      modifies this
      ensures Shape() && Repr == old(Repr) + child.Repr && prefix == old(prefix)
      ensures count == old(count) && leafSamples == old(leafSamples) && tree == old(tree)
      ensures head in children && keys == old(keys) + [head] && Subs() == old(Subs())[head := Empty()]
    {
      hide KidsOf, Insert, Valid, OrderedDict.Distinct;
      DistinctSnoc(keys, head);
      children := children[head := child];
      keys := keys + [head];
      Repr := Repr + child.Repr;
    }

    method AddToChild(head: K, tail: seq<K>) returns (ghost draw: nat)
      requires Shape() && head in children
      modifies Repr
      ensures Shape() && fresh(Repr - old(Repr)) && prefix == old(prefix)
      ensures count == old(count) && leafSamples == old(leafSamples) && tree == old(tree)
      ensures keys == old(keys) && head in old(Subs())
      ensures Subs() == old(Subs())[head := Insert(old(Subs())[head], tail, draw)]
      decreases |tail|, 1
    {
      hide Insert, KidsOf, Valid;
      var child := children[head];
      draw := child.Add(tail);
      SiblingsUntouched(head);
      Repr := Repr + child.Repr;
    }

    /** A change inside one child's objects leaves the other children as they were. */
    twostate lemma SiblingsUntouched(head: K)
      requires old(Shape()) && unchanged(this) && head in children
      requires forall o :: o in old(Repr) && o !in old(children[head].Repr) ==> unchanged(o)
      ensures forall k :: k in children && k != head ==>
                && children[k].Repr == old(children[k].Repr) && children[k].tree == old(children[k].tree)
                && children[k].prefix == old(children[k].prefix) && children[k].Valid()
    {
      hide KidsOf;
      forall k | k in children && k != head
        ensures children[k].Repr == old(children[k].Repr) && children[k].tree == old(children[k].tree)
        ensures children[k].prefix == old(children[k].prefix) && children[k].Valid()
      {
        assert old(children[k].Valid());
      }
    }

    /** Every child hangs under the key it carries as its prefix. */
    lemma ChildrenCarryKeys()
      requires Valid()
      ensures forall k :: k in children ==> children[k].prefix == Some(k) && children[k].Valid()
    {
    }

    method IsLeaf() returns (leaf: bool)
      requires Valid()
      ensures leaf <==> tree.kids.NoKids?
    {
      assert keys != [] ==> keys[0] in children;
      leaf := |children| == 0;
    }

    method OwnCount() returns (n: int)
      requires Valid()
      ensures n == T.OwnCount(tree)
    {
      hide Valid;
      Unfold();
      var leaf := IsLeaf();
      if leaf {
        return count;
      }
      n := count;
      for i := 0 to |keys|
        invariant n - KidCounts(KidsOf(keys[i..], Subs())) == count - KidCounts(KidsOf(keys, Subs()))
      {
        assert keys[i..][1..] == keys[i + 1..] && keys[i..][0] == keys[i];
        children[keys[i]].Unfold();
        n := n - children[keys[i]].count;
      }
    }

    /** The depth of the children from the i-th on. */
    lemma KidsDepthStep(keys: seq<K>, subs: map<K, Trie<K>>, i: nat)
      requires i <= |keys| && forall k :: k in keys ==> k in subs
      ensures KidsDepth(KidsOf(keys[i..], subs)) ==
              if i == |keys| then 0 else Max(T.Depth(subs[keys[i]]), KidsDepth(KidsOf(keys[i + 1..], subs)))
    {
      if i < |keys| { assert keys[i..][1..] == keys[i + 1..] && keys[i..][0] == keys[i]; }
    }

    method Depth() returns (d: nat)
      requires Valid()
      ensures d == T.Depth(tree)
      decreases Repr
    {
      hide Valid, KidsDepth, KidsOf;
      Unfold();
      var leaf := IsLeaf();
      if leaf {
        return 0;
      }
      d := 0;
      assert keys[0..] == keys;
      for i := 0 to |keys|
        invariant Max(d, KidsDepth(KidsOf(keys[i..], Subs()))) == KidsDepth(KidsOf(keys, Subs()))
      {
        KidsDepthStep(keys, Subs(), i);
        var child := children[keys[i]].Depth();
        d := Max(child, d);
      }
      KidsDepthStep(keys, Subs(), |keys|);
      d := d + 1;
    }
  }

  /** Any index below n, as the random source may choose. */
  method RandomBelow(n: nat) returns (r: nat)
    requires n >= 1
    ensures r < n
  {
    r :| 0 <= r < n;
  }

  method AddToReservoir<K>(reservoir: seq<K>, v: K, capacity: nat) returns (r: seq<K>, ghost draw: nat)
    requires capacity >= 1
    ensures r == AddReservoir(reservoir, v, capacity, draw)
  {
    draw := 0;
    if |reservoir| < capacity {
      r := reservoir + [v];
    } else {
      var idx := RandomBelow(|reservoir|);
      draw := idx;
      r := if idx < capacity then reservoir[idx := v] else reservoir;
    }
  }

  /** A fresh tree with the tuples added in order. */
  method FromTuples<K>(values: seq<seq<K>>) returns (pc: PrefixCounter<K>, ghost draws: seq<nat>)
    ensures fresh(pc) && fresh(pc.Repr) && pc.Valid() && |draws| == |values| && pc.tree == T.FromTuples(values, draws)
    ensures pc.prefix == None
  {
    pc := new PrefixCounter<K>(None);
    draws := [];
    for i := 0 to |values|
      invariant pc.prefix == None
      invariant fresh(pc) && fresh(pc.Repr) && pc.Valid() && |draws| == i && pc.tree == T.FromTuples(values[..i], draws)
    {
      hide PrefixCounter.Valid, Insert;
      ghost var draw := pc.Add(values[i]);
      assert values[..i + 1][..i] == values[..i] && (draws + [draw])[..i] == draws;
      draws := draws + [draw];
    }
    assert values[..|values|] == values;
  }

  // ---------------------------------------------------------------- treemap

  lemma {:induction false} KidEntriesOf<K>(path: seq<K>, keys: seq<K>, subs: map<K, Trie<K>>)
    requires forall k :: k in keys ==> k in subs
    ensures var es := Treemap.KidEntries(path, KidsOf(keys, subs));
            |es| == |keys| && forall j :: 0 <= j < |keys| ==> es[j] == (path + [keys[j]], subs[keys[j]])
  {
    if keys != [] { KidEntriesOf(path, keys[1..], subs); }
  }

  /** The stack holds valid nodes under the ids of their paths. */
  ghost predicate Mirrors<K>(stack: seq<(string, PrefixCounter<K>)>, trail: seq<(seq<K>, Trie<K>)>, show: K -> string)
    reads set i | 0 <= i < |stack| :: stack[i].1, set i, o | 0 <= i < |stack| && o in stack[i].1.Repr :: o
  {
    && |stack| == |trail|
    && forall i :: 0 <= i < |stack| ==>
         stack[i].1.Valid() && stack[i].1.tree == trail[i].1 && stack[i].0 == Treemap.Id(trail[i].0, show)
  }

  lemma VisitStep<K>(trail: seq<(seq<K>, Trie<K>)>, show: K -> string)
    requires trail != []
    ensures var (path, node) := trail[|trail| - 1];
            Treemap.Items(Treemap.Visit(trail), show) ==
            [Treemap.ItemOf(Treemap.Id(path, show), node.count, T.Depth(node))] +
            Treemap.Items(Treemap.Visit(Treemap.Pushed(trail)), show)
    ensures var (path, node) := trail[|trail| - 1];
            Treemap.Pushed(trail) == trail[..|trail| - 1] + Treemap.KidEntries(path, node.kids)
  {
    var (path, node) := trail[|trail| - 1];
    assert Treemap.Pushed(trail) == trail[..|trail| - 1] + Treemap.KidEntries(path, node.kids);
    hide T.Depth, Treemap.Visit, Treemap.Pushed, Treemap.Id, Treemap.ItemOf, Treemap.StackSize, Treemap.Items;
    Treemap.VisitUnfold(trail);
    Treemap.ItemsCons(trail[|trail| - 1], Treemap.Visit(Treemap.Pushed(trail)), show);
  }

  /** The inner loop of build_treemap. */
  method PushChildren<K>(below: seq<(string, PrefixCounter<K>)>, prefix: string, node: PrefixCounter<K>,
                         ghost trail: seq<(seq<K>, Trie<K>)>, ghost path: seq<K>, show: K -> string)
    returns (stack: seq<(string, PrefixCounter<K>)>)
    requires Mirrors(below, trail, show) && node.Valid() && prefix == Treemap.Id(path, show)
    ensures Mirrors(stack, trail + Treemap.KidEntries(path, node.tree.kids), show)
  {
    hide PrefixCounter.Valid, KidsOf, Treemap.KidEntries;
    node.Unfold();
    KidEntriesOf(path, node.keys, node.Subs());
    ghost var entries := Treemap.KidEntries(path, node.tree.kids);
    stack := below;
    assert trail + entries[..0] == trail;
    for i := 0 to |node.keys|
      invariant Mirrors(stack, trail + entries[..i], show)
    {
      var key := node.keys[i];
      var childPrefix := if prefix != [] then prefix + "/" + show(key) else show(key);
      ChildIdIs(path, key, show);
      assert entries[i] == (path + [key], node.children[key].tree);
      assert trail + entries[..i + 1] == (trail + entries[..i]) + [entries[i]];
      MirrorsPush(stack, trail + entries[..i], show, childPrefix, node.children[key], path + [key]);
      stack := stack + [(childPrefix, node.children[key])];
    }
    assert entries[..|entries|] == entries;
  }

  lemma ChildIdIs<K>(path: seq<K>, key: K, show: K -> string)
    ensures Treemap.Id(path + [key], show) == Treemap.ChildId(Treemap.Id(path, show), show(key))
  {
    assert (path + [key])[..|path|] == path;
  }

  lemma MirrorsPush<K>(stack: seq<(string, PrefixCounter<K>)>, trail: seq<(seq<K>, Trie<K>)>, show: K -> string,
                       id: string, node: PrefixCounter<K>, path: seq<K>)
    requires Mirrors(stack, trail, show) && node.Valid() && id == Treemap.Id(path, show)
    ensures Mirrors(stack + [(id, node)], trail + [(path, node.tree)], show)
  {
    hide PrefixCounter.Valid, Treemap.Id;
  }

  /** build_treemap: the items of the stack traversal from the root. */
  method BuildTreemap<K>(root: PrefixCounter<K>, show: K -> string) returns (items: seq<Treemap.Item>)
    requires root.Valid()
    ensures items == Treemap.Items(Treemap.Visit([([], root.tree)]), show)
  {
    hide PrefixCounter.Valid, Treemap.Visit, Treemap.StackSize, Treemap.Items, Treemap.Pushed, Treemap.KidEntries,
      Treemap.ItemOf, Treemap.Id, KidsOf, T.Depth;
    items := [];
    Treemap.IdUnfold<K>([], show);
    var stack := [("", root)];
    ghost var trail: seq<(seq<K>, Trie<K>)> := [([], root.tree)];
    ghost var all := Treemap.Items(Treemap.Visit(trail), show);
    while stack != []
      invariant Mirrors(stack, trail, show)
      invariant items + Treemap.Items(Treemap.Visit(trail), show) == all
      decreases Treemap.StackSize(trail)
    {
      var n := |stack| - 1;
      var (prefix, node) := stack[n];
      ghost var path := trail[n].0;
      VisitStep(trail, show);
      node.Unfold();
      var depth := node.Depth();
      items := items + [Treemap.ItemOf(prefix, node.count, depth)];
      stack := PushChildren(stack[..n], prefix, node, trail[..n], path, show);
      trail := Treemap.Pushed(trail);
    }
    Treemap.VisitUnfold(trail);
  }
}
