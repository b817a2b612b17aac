/** build_dict.py's _UnionFind: path halving in place, union by rank, clusters. */
module UnionFind {
  import opened Connectivity
  import opened Forest
  import OrderedDict

  /** What a root table says about the pairs united so far: the ends of every pair share a
      root, and every element is connected to its own root. */
  ghost predicate Explains(roots: map<char, char>, edges: seq<Edge>) {
    && (forall e :: e in edges ==> e.0 in roots && e.1 in roots && roots[e.0] == roots[e.1])
    && (forall x :: x in roots ==> Connected(edges, x, roots[x]))
  }

  /** Equal roots mean exactly connectivity. */
  ghost predicate RootsMeanConnectivity(roots: map<char, char>, edges: seq<Edge>) {
    forall x, y :: x in roots && y in roots ==> (roots[x] == roots[y] <==> Connected(edges, x, y))
  }

  lemma ExplainsConnectivity(roots: map<char, char>, edges: seq<Edge>)
    requires Explains(roots, edges)
    ensures RootsMeanConnectivity(roots, edges)
  {
    hide Connected;
    forall x, y | x in roots && y in roots ensures roots[x] == roots[y] <==> Connected(edges, x, y) {
      if roots[x] == roots[y] {
        ConnectedSymm(edges, y, roots[y]);
        ConnectedTrans(edges, x, roots[x], y);
      }
      if Connected(edges, x, y) {
        ConnectedKeepsLabel(edges, roots, x, y);
      }
    }
  }

  function SetDefault<K(==), V>(m: map<K, V>, k: K, v: V): map<K, V> {
    if k in m then m else m[k := v]
  }

  function Merged(roots: map<char, char>, ra: char, rb: char, top: char): map<char, char> {
    map y | y in roots :: if roots[y] == ra || roots[y] == rb then top else roots[y]
  }

  /** Merging the roots of a and b explains one more pair. */
  lemma ExplainsUnion(roots: map<char, char>, edges: seq<Edge>, a: char, b: char, top: char)
    requires Explains(roots, edges) && a in roots && b in roots && (top == roots[a] || top == roots[b])
    ensures Explains(Merged(roots, roots[a], roots[b], top), edges + [(a, b)])
  {
    hide Connected;
    var more := edges + [(a, b)];
    forall x | x in roots ensures Connected(more, x, Merged(roots, roots[a], roots[b], top)[x]) {
      MergedConnected(roots, edges, a, b, top, x);
    }
  }

  lemma MergedConnected(roots: map<char, char>, edges: seq<Edge>, a: char, b: char, top: char, x: char)
    requires Explains(roots, edges) && a in roots && b in roots && (top == roots[a] || top == roots[b])
    requires x in roots
    ensures Connected(edges + [(a, b)], x, Merged(roots, roots[a], roots[b], top)[x])
  {
    hide Connected;
    var more := edges + [(a, b)];
    forall x | x in roots ensures Connected(more, x, roots[x]) {
      ConnectedMono(edges, more, x, roots[x]);
    }
    var ra, rb := roots[a], roots[b];
    ConnectedEdge(more, a, b) by { assert more[|edges|] == (a, b); }
    ConnectedSymm(more, a, ra);
    ConnectedTrans(more, ra, a, b);
    ConnectedTrans(more, ra, b, rb);
    ConnectedSymm(more, ra, rb);
    ConnectedRefl(more, top);
    if roots[x] == ra || roots[x] == rb {
      ConnectedTrans(more, x, roots[x], top);
    }
  }

  /** The elements labelled with their roots, in key order: what clusters() groups. */
  ghost function Labelled(keys: seq<char>, roots: map<char, char>): (r: seq<(char, char)>)
    requires forall k :: k in keys ==> k in roots
    ensures |r| == |keys|
    ensures forall i :: 0 <= i < |keys| ==> r[i] == (roots[keys[i]], keys[i])
  {
    seq(|keys|, i requires 0 <= i < |keys| && keys[i] in roots => (roots[keys[i]], keys[i]))
  }

  class UnionFind {
    var parent: map<char, char>
    var rank: map<char, nat>
    var keys: seq<char>            // insertion order of the parent dictionary
    ghost var united: seq<Edge>    // every pair passed to Union so far

    ghost function F(): Forest reads this { Forest(parent, rank) }

    ghost predicate Valid() reads this {
      && IsForest(F()) && RankBounded(F()) && Explains(Roots(F()), united)
      && OrderedDict.Distinct(keys) && parent.Keys == (set k | k in keys)
    }

    constructor ()
      ensures Valid() && united == [] && keys == []
    {
      parent, rank, keys, united := map[], map[], [], [];
    }

    /** The root of x, registering x first when it is new.  Halving changes no root and takes
        half the path, rounded up, so at most about half the logarithm of the component. */
    method Find(x: char) returns (root: char, ghost steps: nat)
      requires Valid()
      modifies this
      ensures Valid() && united == old(united)
      ensures Roots(F()) == SetDefault(old(Roots(F())), x, x) && rank == SetDefault(old(rank), x, 0)
      ensures keys == if x in old(parent) then old(keys) else old(keys) + [x]
      ensures x in parent && root == Roots(F())[x] && root in parent && parent[root] == root
      ensures parent.Keys == old(parent.Keys) + {x}
      ensures steps == if x in old(parent) then (old(Depth(F(), x)) + 1) / 2 else 0
      ensures steps > 0 ==> Pow2(2 * steps - 1) <= |Component(F(), root)| <= |keys|
    {
      hide Root, Explains, RankBounded, Pow2, Depth, Component;
      if x !in parent {
        Register(x);
      }
      root, steps := Climb(x);
      KeyCount(keys, parent.Keys);
    }

    /** The first branch of find: an unseen element becomes its own singleton component. */
    method Register(x: char)
      requires Valid() && x !in parent
      modifies this
      ensures Valid() && united == old(united)
      ensures Roots(F()) == old(Roots(F()))[x := x] && rank == old(rank)[x := 0] && keys == old(keys) + [x]
      ensures Depth(F(), x) == 0
    {
      AddSingletonKeeps(F(), x);
      SingletonExplains(Roots(F()), x, united);
      parent, rank, keys := parent[x := x], rank[x := 0], keys + [x];
    }

    /** The while loop of find. */
    method Climb(x: char) returns (root: char, ghost steps: nat)
      requires Valid() && x in parent
      modifies this
      ensures Valid() && united == old(united) && rank == old(rank) && keys == old(keys)
      ensures parent.Keys == old(parent.Keys)
      ensures Roots(F()) == old(Roots(F())) && root == Roots(F())[x] && root in parent && parent[root] == root
      ensures steps == (old(Depth(F(), x)) + 1) / 2
      ensures steps > 0 ==> Pow2(2 * steps - 1) <= |Component(F(), root)| <= |parent|
    {
      hide Explains, Climbing, IsForest, RankBounded, Roots;
      ghost var f := F();
      var y := x;
      steps := 0;
      ClimbStart(f, x);
      while parent[y] != y
        invariant united == old(united) && rank == old(rank) && keys == old(keys)
        invariant Climbing(f, F(), x, y, steps) && y in parent
        decreases Left(f, F(), x, y, steps)
      {
        ClimbStep(f, F(), x, y, steps);
        parent := parent[y := parent[parent[y]]];
        y := parent[y];
        steps := steps + 1;
      }
      root := y;
      ClimbEnd(f, F(), x, y, steps);
    }

    /** Merge the components of a and b: equal roots afterwards mean exactly connectivity
        by the pairs united so far, this one included. */
    method Union(a: char, b: char)
      requires Valid()
      modifies this
      ensures Valid() && united == old(united) + [(a, b)]
      ensures parent.Keys == old(parent.Keys) + {a, b}
      ensures RootsMeanConnectivity(Roots(F()), united)
    {
      hide Roots, RankBounded, IsForest, Connected, Explains, Merged;
      var ra, rb := FindBoth(a, b);
      ghost var roots := Roots(F());
      ghost var top := Join(ra, rb);
      ExplainsUnion(roots, united, a, b, top);
      united := united + [(a, b)];
      ExplainsConnectivity(Roots(F()), united);
    }

    /** The two calls of find at the start of union; the second keeps the first one's answer. */
    method FindBoth(a: char, b: char) returns (ra: char, rb: char)
      requires Valid()
      modifies this
      ensures Valid() && united == old(united) && parent.Keys == old(parent.Keys) + {a, b}
      ensures a in Roots(F()) && b in Roots(F()) && ra == Roots(F())[a] && rb == Roots(F())[b]
      ensures ra in parent && rb in parent && parent[ra] == ra && parent[rb] == rb
    {
      hide Roots, RankBounded, IsForest, Explains, Depth, Component, Pow2, OrderedDict.Distinct;
      ghost var steps;
      ra, steps := Find(a);
      RootsTable(F());
      rb, steps := Find(b);
      RootsTable(F());
    }

    /** The rank comparison of union: the root of lower rank goes below the other one. */
    method Join(ra: char, rb: char) returns (ghost top: char)
      requires Valid() && ra in parent && rb in parent && parent[ra] == ra && parent[rb] == rb
      modifies this
      ensures IsForest(F()) && RankBounded(F())
      ensures top == ra || top == rb
      ensures Roots(F()) == Merged(old(Roots(F())), ra, rb, top)
      ensures united == old(united) && keys == old(keys) && parent.Keys == old(parent.Keys)
    {
      hide Explains, Root, Component, Pow2, Sound, OrderedDict.Distinct;
      var high, low := ra, rb;
      top := ra;
      if high == low {
        return;
      }
      if rank[high] < rank[low] {
        high, low := low, high;
      }
      top := high;
      ghost var f := F();
      LinkIsForest(f, high, low);
      LinkRankBounded(f, high, low);
      LinkRoots(f, high, low);
      parent := parent[low := high];
      if rank[high] == rank[low] {
        rank := rank[high := rank[high] + 1];
      }
      MergedIsLinked(f, high, low);
    }

    /** The components as lists, in the order their first members were registered.  The key
        set being iterated over does not change while Find rewrites its values. */
    method Clusters() returns (clusters: seq<seq<char>>)
      requires Valid()
      modifies this
      ensures Valid() && united == old(united) && keys == old(keys) && rank == old(rank)
      ensures Roots(F()) == old(Roots(F()))
      ensures clusters == OrderedDict.Values(OrderedDict.Group(Labelled(keys, Roots(F()))))
    {
      var groups := OrderedDict.Empty();
      ghost var items := Labelled(keys, Roots(F()));
      assert groups == OrderedDict.Group(items[..0]);
      hide Root, RankBounded, Explains, OrderedDict.Group, OrderedDict.Append;
      for i := 0 to |keys|
        invariant Valid() && united == old(united) && keys == old(keys) && rank == old(rank)
        invariant Roots(F()) == old(Roots(F())) && items == Labelled(keys, Roots(F()))
        invariant groups == OrderedDict.Group(items[..i])
      {
        var x := keys[i];
        var root, _ := Find(x);
        OrderedDict.GroupStep(items, i);
        groups := OrderedDict.Append(groups, (root, x));
      }
      assert items[..|keys|] == items;
      OrderedDict.GroupIsStablePartition(items);
      clusters := OrderedDict.Values(groups);
    }
  }

  lemma MergedIsLinked(f: Forest, high: char, low: char)
    requires Linkable(f, high, low) && IsForest(Link(f, high, low))
    requires Roots(Link(f, high, low)) == map y | y in f.parent :: if Root(f, y) == low then high else Root(f, y)
    ensures Roots(Link(f, high, low)) == Merged(Roots(f), high, low, high)
    ensures Roots(Link(f, high, low)) == Merged(Roots(f), low, high, high)
  {
  }

  lemma SingletonExplains(roots: map<char, char>, x: char, edges: seq<Edge>)
    requires x !in roots && Explains(roots, edges)
    ensures Explains(roots[x := x], edges)
  {
    ConnectedRefl(edges, x);
  }

  /** The state of the find loop: started at x in f, it stands at y in g after some steps. */
  ghost predicate Climbing(f: Forest, g: Forest, x: char, y: char, steps: nat)
    requires IsForest(f) && x in f.parent
  {
    && IsForest(g) && RankBounded(g) && Roots(g) == Roots(f) && g.rank == f.rank && y in g.parent
    && Root(g, y) == Root(f, x)
    && (2 * steps + Depth(g, y) == Depth(f, x) || (Depth(g, y) == 0 && 2 * steps == Depth(f, x) + 1))
  }

  ghost function Left(f: Forest, g: Forest, x: char, y: char, steps: nat): nat
    requires IsForest(f) && x in f.parent && Climbing(f, g, x, y, steps)
  {
    Depth(g, y)
  }

  lemma ClimbStart(f: Forest, x: char)
    requires IsForest(f) && RankBounded(f) && x in f.parent
    ensures Climbing(f, f, x, x, 0)
  {
  }

  lemma ClimbStep(f: Forest, g: Forest, x: char, y: char, steps: nat)
    requires IsForest(f) && x in f.parent && Climbing(f, g, x, y, steps) && g.parent[y] != y
    ensures g.parent[y] in g.parent && g.parent[g.parent[y]] in g.parent
    ensures Climbing(f, Halve(g, y), x, g.parent[g.parent[y]], steps + 1)
    ensures Left(f, Halve(g, y), x, g.parent[g.parent[y]], steps + 1) < Left(f, g, x, y, steps)
  {
    hide Root, Depth, RankBounded;
    AtRoot(g, y);
    HalvingStep(g, y);
    HalveKeeps(g, y);
  }

  lemma ClimbEnd(f: Forest, g: Forest, x: char, y: char, steps: nat)
    requires IsForest(f) && RankBounded(f) && x in f.parent && Climbing(f, g, x, y, steps) && g.parent[y] == y
    ensures IsForest(g) && RankBounded(g) && Roots(g) == Roots(f) && g.parent.Keys == f.parent.Keys
    ensures x in g.parent && y == Roots(g)[x] && steps == (Depth(f, x) + 1) / 2
    ensures steps > 0 ==> Pow2(2 * steps - 1) <= |Component(g, y)| <= |g.parent|
  {
    hide Depth, RankBounded;
    AtRoot(g, y);
    assert Roots(f)[x] == Root(f, x);
    assert g.parent.Keys == Roots(g).Keys == Roots(f).Keys == f.parent.Keys;
    assert |g.parent| == |g.parent.Keys| == |f.parent|;
    FindBound(f, x, steps);
    SameComponents(f, g, y);
  }

  lemma FindBound(f: Forest, x: char, steps: nat)
    requires IsForest(f) && RankBounded(f) && x in f.parent && steps == (Depth(f, x) + 1) / 2
    ensures steps > 0 ==> Pow2(2 * steps - 1) <= |Component(f, Root(f, x))| <= |f.parent|
  {
    DepthLogarithmic(f, x);
    if steps > 0 { Pow2Mono(2 * steps - 1, Depth(f, x)); }
  }

  lemma SameComponents(f: Forest, g: Forest, r: char)
    requires IsForest(f) && IsForest(g) && Roots(f) == Roots(g)
    ensures Component(f, r) == Component(g, r)
  {
    hide Root;
    assert f.parent.Keys == Roots(f).Keys == Roots(g).Keys == g.parent.Keys;
    forall y | y in f.parent ensures Root(f, y) == Root(g, y) {
      assert y in Roots(f) && Roots(f)[y] == Roots(g)[y];
    }
  }

  lemma {:induction false} KeyCount(keys: seq<char>, s: set<char>)
    requires OrderedDict.Distinct(keys) && s == (set k | k in keys)
    ensures |s| == |keys|
  {
    if keys != [] {
      var front := keys[..|keys| - 1];
      assert keys == front + [keys[|keys| - 1]];
      KeyCount(front, set k | k in front);
      assert s == (set k | k in front) + {keys[|keys| - 1]};
    }
  }
}
