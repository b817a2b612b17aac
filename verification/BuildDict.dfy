/** The in-memory part of build_dict.py's _build: union every pair, drop singletons,
    pick the least code point of each cluster and sort. */
module BuildDict {
  import opened Connectivity
  import opened Sorting
  import OrderedDict
  import Forest
  import UF = UnionFind

  datatype Cluster = Cluster(representative: char, members: seq<char>)

  function Ord(c: char): int { c as int }

  function RepOrd(c: Cluster): int { Ord(c.representative) }

  predicate InCluster(k: Cluster, c: char) {
    c == k.representative || c in k.members
  }

  /** The canonical description of an equivalence: one entry per non-trivial class,
      headed by its least character, everything in ascending order. */
  ghost predicate IsCanonical(cs: seq<Cluster>, edges: seq<Edge>) {
    && StrictlySortedBy(cs, RepOrd)
    && (forall i :: 0 <= i < |cs| ==> Describes(cs[i], edges))
    && (forall a, b :: a != b && Connected(edges, a, b) ==> Covered(cs, a))
  }

  ghost predicate Describes(k: Cluster, edges: seq<Edge>) {
    && k.members != []
    && StrictlySortedBy([k.representative] + k.members, Ord)
    && (forall c :: InCluster(k, c) <==> Connected(edges, k.representative, c))
  }

  predicate Covered(cs: seq<Cluster>, c: char) {
    exists i :: 0 <= i < |cs| && InCluster(cs[i], c)
  }

  // --------------------------------------------------------- canonicity

  /** Two canonical lists of the same equivalence are the same list. */
  lemma CanonicalUnique(cs: seq<Cluster>, ds: seq<Cluster>, e1: seq<Edge>, e2: seq<Edge>)
    requires IsCanonical(cs, e1) && IsCanonical(ds, e2) && SameEquivalence(e1, e2)
    ensures cs == ds
  {
    hide Connected;
    forall k ensures k in cs <==> k in ds {
      if k in cs { SameEntry(cs, ds, e1, e2, k); }
      if k in ds { SameEntry(ds, cs, e2, e1, k); }
    }
    StrictlySortedUnique(cs, ds, RepOrd);
  }

  lemma FirstMember(k: Cluster, edges: seq<Edge>)
    requires Describes(k, edges)
    ensures k.representative < k.members[0] && Connected(edges, k.representative, k.members[0])
  {
    var s := [k.representative] + k.members;
    assert Ord(s[0]) < Ord(s[1]);
    assert InCluster(k, k.members[0]);
  }

  lemma SameEntry(cs: seq<Cluster>, ds: seq<Cluster>, e1: seq<Edge>, e2: seq<Edge>, k: Cluster)
    requires IsCanonical(cs, e1) && IsCanonical(ds, e2) && SameEquivalence(e1, e2) && k in cs
    ensures k in ds
  {
    hide Connected;
    assert Describes(k, e1);
    FirstMember(k, e1);
    assert Connected(e2, k.representative, k.members[0]);
    assert Covered(ds, k.representative);
    var i :| 0 <= i < |ds| && InCluster(ds[i], k.representative);
    assert Describes(ds[i], e2);
    SameClass(k, ds[i], e1, e2);
  }

  lemma SameClass(k: Cluster, d: Cluster, e1: seq<Edge>, e2: seq<Edge>)
    requires Describes(k, e1) && Describes(d, e2) && SameEquivalence(e1, e2)
    requires InCluster(d, k.representative)
    ensures k == d
  {
    hide Connected;
    var s, t := [k.representative] + k.members, [d.representative] + d.members;
    forall c ensures c in s <==> c in t {
      assert c in s <==> InCluster(k, c);
      assert c in t <==> InCluster(d, c);
      if Connected(e2, k.representative, c) { ConnectedTrans(e2, d.representative, k.representative, c); }
      if Connected(e2, d.representative, c) {
        ConnectedSymm(e2, d.representative, k.representative);
        ConnectedTrans(e2, k.representative, d.representative, c);
      }
    }
    StrictlySortedUnique(s, t, Ord);
    assert k.representative == s[0] && k.members == s[1..];
    assert d.representative == t[0] && d.members == t[1..];
  }

  /** What canonicity means entry by entry: representatives are least in their class,
      and clusters are disjoint. */
  lemma CanonicalClasses(cs: seq<Cluster>, edges: seq<Edge>, i: nat, c: char)
    requires IsCanonical(cs, edges) && i < |cs| && InCluster(cs[i], c)
    ensures forall d :: Connected(edges, c, d) ==> cs[i].representative <= d && InCluster(cs[i], d)
    ensures forall j :: 0 <= j < |cs| && j != i ==> !InCluster(cs[j], c)
  {
    hide Connected;
    var k := cs[i];
    assert Describes(k, edges);
    forall d | Connected(edges, c, d) ensures k.representative <= d && InCluster(k, d) {
      ConnectedTrans(edges, k.representative, c, d);
      LeastOfCluster(k, edges, d);
    }
    forall j | 0 <= j < |cs| && j != i ensures !InCluster(cs[j], c) {
      if InCluster(cs[j], c) {
        assert Describes(cs[j], edges);
        ConnectedSymm(edges, cs[j].representative, c);
        ConnectedTrans(edges, k.representative, c, cs[j].representative);
        assert RepOrd(cs[i]) != RepOrd(cs[j]);
        SameClass(cs[j], k, edges, edges);
      }
    }
  }

  lemma LeastOfCluster(k: Cluster, edges: seq<Edge>, c: char)
    requires Describes(k, edges) && InCluster(k, c)
    ensures k.representative <= c
  {
    var s := [k.representative] + k.members;
    assert c in s;
    var i :| 0 <= i < |s| && s[i] == c;
    assert i > 0 ==> Ord(s[0]) < Ord(s[i]);
  }

  /** With no self-pairs (the parser emits none), the covered characters are exactly
      those that occur in some pair. */
  lemma CoveredExactlyMentioned(cs: seq<Cluster>, edges: seq<Edge>, c: char)
    requires IsCanonical(cs, edges) && forall e :: e in edges ==> e.0 != e.1
    ensures Covered(cs, c) <==> Mentioned(edges, c)
  {
    hide Connected;
    if Mentioned(edges, c) {
      var i :| 0 <= i < |edges| && (edges[i].0 == c || edges[i].1 == c);
      var d := if edges[i].0 == c then edges[i].1 else edges[i].0;
      assert edges[i] in edges;
      assert edges[i] == (c, d) || edges[i] == (d, c);
      ConnectedEdge(edges, c, d);
    }
    if Covered(cs, c) {
      var i :| 0 <= i < |cs| && InCluster(cs[i], c);
      var k := cs[i];
      assert Describes(k, edges);
      if c == k.representative {
        FirstMember(k, edges);
        ConnectedMentioned(edges, c, k.members[0]);
      } else {
        ConnectedMentioned(edges, k.representative, c);
      }
    }
  }

  // -------------------------------------------------- from groups to entries

  /** The raw clusters: the equivalence classes of the registered characters. */
  ghost predicate ArePartition(groups: seq<seq<char>>, edges: seq<Edge>) {
    && (forall i :: 0 <= i < |groups| ==> IsClass(groups[i], edges))
    && (forall i, j, c :: 0 <= i < j < |groups| && c in groups[i] ==> c !in groups[j])
    && (forall c :: Mentioned(edges, c) ==> InSome(groups, c))
  }

  ghost predicate IsClass(g: seq<char>, edges: seq<Edge>) {
    && g != [] && OrderedDict.Distinct(g)
    && (forall c, d :: c in g ==> (d in g <==> Connected(edges, c, d)))
  }

  predicate InSome(groups: seq<seq<char>>, c: char) {
    exists i :: 0 <= i < |groups| && c in groups[i]
  }

  lemma {:induction false} SelectLabelled(keys: seq<char>, roots: map<char, char>, r: char)
    requires OrderedDict.Distinct(keys) && forall k :: k in keys ==> k in roots
    ensures var g := OrderedDict.Select(UF.Labelled(keys, roots), r);
            && OrderedDict.Distinct(g)
            && forall c :: c in g <==> c in keys && roots[c] == r
  {
    if keys != [] {
      var front, last := keys[..|keys| - 1], keys[|keys| - 1];
      SelectLabelled(front, roots, r);
      assert UF.Labelled(keys, roots) == UF.Labelled(front, roots) + [(roots[last], last)];
      OrderedDict.SelectAppend(UF.Labelled(front, roots), (roots[last], last), r);
      hide OrderedDict.Select, UF.Labelled;
      assert keys == front + [last];
    }
  }

  lemma MentionedIsRegistered(roots: map<char, char>, edges: seq<Edge>, c: char)
    requires UF.Explains(roots, edges) && Mentioned(edges, c)
    ensures c in roots
  {
    var i :| 0 <= i < |edges| && (edges[i].0 == c || edges[i].1 == c);
    assert edges[i] in edges;
  }

  /** One group: the registered characters sharing the root r. */
  lemma GroupIsClass(keys: seq<char>, roots: map<char, char>, edges: seq<Edge>, r: char)
    requires OrderedDict.Distinct(keys) && roots.Keys == (set k | k in keys)
    requires UF.Explains(roots, edges)
    requires OrderedDict.FirstIndex(UF.Labelled(keys, roots), r) < |keys|
    ensures IsClass(OrderedDict.Select(UF.Labelled(keys, roots), r), edges)
  {
    hide Connected, UF.Explains;
    var items := UF.Labelled(keys, roots);
    var g := OrderedDict.Select(items, r);
    SelectLabelled(keys, roots, r);
    var n := OrderedDict.FirstIndex(items, r);
    assert items[n] == (roots[keys[n]], keys[n]);
    assert keys[n] in g;
    UF.ExplainsConnectivity(roots, edges);
    forall c, d | c in g ensures d in g <==> Connected(edges, c, d) {
      if Connected(edges, c, d) && d !in roots {
        ConnectedRegistered(roots, edges, c, d);
      }
    }
  }

  lemma ConnectedRegistered(roots: map<char, char>, edges: seq<Edge>, c: char, d: char)
    requires UF.Explains(roots, edges) && c in roots && Connected(edges, c, d)
    ensures d in roots
  {
    ConnectedKeepsLabel(edges, roots, c, d);
  }

  /** The groups a union-find extracts are the equivalence classes of its united pairs. */
  lemma GroupsArePartition(keys: seq<char>, roots: map<char, char>, edges: seq<Edge>)
    requires OrderedDict.Distinct(keys) && roots.Keys == (set k | k in keys)
    requires UF.Explains(roots, edges)
    ensures ArePartition(OrderedDict.Values(OrderedDict.Group(UF.Labelled(keys, roots))), edges)
  {
    hide Connected, OrderedDict.Group, UF.Explains, UF.RootsMeanConnectivity, OrderedDict.Select,
        OrderedDict.FirstIndex;
    var items := UF.Labelled(keys, roots);
    var d := OrderedDict.Group(items);
    var groups := OrderedDict.Values(d);
    OrderedDict.GroupIsStablePartition(items);
    forall i | 0 <= i < |groups| ensures IsClass(groups[i], edges) {
      GroupIsClass(keys, roots, edges, d.keys[i]);
    }
    forall i, j, c | 0 <= i < j < |groups| && c in groups[i] ensures c !in groups[j] {
      SelectLabelled(keys, roots, d.keys[i]);
      SelectLabelled(keys, roots, d.keys[j]);
    }
    forall c | Mentioned(edges, c) ensures InSome(groups, c) {
      MentionedIsRegistered(roots, edges, c);
      RegisteredIsGrouped(keys, roots, c);
    }
  }

  lemma RegisteredIsGrouped(keys: seq<char>, roots: map<char, char>, c: char)
    requires OrderedDict.Distinct(keys) && roots.Keys == (set k | k in keys) && c in roots
    ensures InSome(OrderedDict.Values(OrderedDict.Group(UF.Labelled(keys, roots))), c)
  {
    hide OrderedDict.Group, OrderedDict.Select, OrderedDict.FirstIndex;
    var items := UF.Labelled(keys, roots);
    var d := OrderedDict.Group(items);
    OrderedDict.GroupIsStablePartition(items);
    var n :| 0 <= n < |keys| && keys[n] == c;
    assert items[n] == (roots[c], c);
    assert roots[c] in d.vals;
    var i :| 0 <= i < |d.keys| && d.keys[i] == roots[c];
    SelectLabelled(keys, roots, d.keys[i]);
    assert c in OrderedDict.Values(d)[i];
  }

  /** The members of a raw cluster apart from its representative, in order. */
  function Others(members: seq<char>, rep: char): (r: seq<char>)
    ensures forall c :: c in r <==> c in members && c != rep
  {
    if members == [] then []
    else
      assert members == [members[0]] + members[1..];
      (if members[0] != rep then [members[0]] else []) + Others(members[1..], rep)
  }

  lemma {:induction false} OthersDistinct(members: seq<char>, rep: char)
    requires OrderedDict.Distinct(members)
    ensures DistinctKeys(Others(members, rep), Ord)
  {
    if members != [] {
      var rest := Others(members[1..], rep);
      OthersDistinct(members[1..], rep);
      forall j | 0 <= j < |rest| ensures rest[j] != members[0] {
        assert rest[j] in rest && rest[j] in members[1..];
      }
    }
  }

  function Entry(members: seq<char>): Cluster
    requires members != []
  {
    var rep := MinBy(members, Ord);
    Cluster(rep, SortBy(Others(members, rep), Ord))
  }

  lemma EntryDescribes(g: seq<char>, edges: seq<Edge>)
    requires IsClass(g, edges) && |g| > 1
    ensures Describes(Entry(g), edges)
    ensures forall c :: InCluster(Entry(g), c) <==> c in g
  {
    hide Connected, SortBy, Others, MinBy;
    var k := Entry(g);
    var rep := k.representative;
    OthersDistinct(g, rep);
    SortByStrict(Others(g, rep), Ord);
    forall c ensures InCluster(k, c) <==> c in g {
      SortByMembers(Others(g, rep), Ord, c);
    }
    forall i | 0 <= i < |k.members| ensures Ord(rep) < Ord(k.members[i]) {
      SortByMembers(Others(g, rep), Ord, k.members[i]);
    }
    var other := if g[0] != rep then g[0] else g[1];
    SortByMembers(Others(g, rep), Ord, other);
  }

  /** The entries of the groups of at least two characters, in group order. */
  function Entries(groups: seq<seq<char>>): seq<Cluster> {
    if groups == [] then []
    else
      var last := groups[|groups| - 1];
      if |last| <= 1 then Entries(groups[..|groups| - 1]) else Entries(groups[..|groups| - 1]) + [Entry(last)]
  }

  lemma {:induction false} EntriesMembers(groups: seq<seq<char>>)
    ensures forall k :: k in Entries(groups) <==>
              exists i :: 0 <= i < |groups| && |groups[i]| > 1 && k == Entry(groups[i])
  {
    hide Entry;
    if groups != [] {
      var n := |groups| - 1;
      var front := groups[..n];
      EntriesMembers(front);
      forall k
        ensures k in Entries(groups) <==>
                  exists i :: 0 <= i < |groups| && |groups[i]| > 1 && k == Entry(groups[i])
      {
        if k in Entries(front) {
          var i :| 0 <= i < |front| && |front[i]| > 1 && k == Entry(front[i]);
          assert groups[i] == front[i];
        }
        if i :| 0 <= i < |groups| && |groups[i]| > 1 && k == Entry(groups[i]) {
          if i < n { assert front[i] == groups[i]; }
        }
      }
    }
  }

  lemma RepresentativeInside(g: seq<char>)
    requires g != []
    ensures Entry(g).representative in g
  {
  }

  lemma {:induction false} EntriesDistinct(groups: seq<seq<char>>)
    requires forall i, j, c :: 0 <= i < j < |groups| && c in groups[i] ==> c !in groups[j]
    ensures DistinctKeys(Entries(groups), RepOrd)
  {
    hide Entry;
    if groups != [] {
      var n := |groups| - 1;
      var front := groups[..n];
      EntriesDistinct(front);
      if |groups[n]| > 1 {
        EntriesMembers(front);
        RepresentativeInside(groups[n]);
        forall k | k in Entries(front) ensures k.representative != Entry(groups[n]).representative {
          var i :| 0 <= i < |front| && |front[i]| > 1 && k == Entry(front[i]);
          RepresentativeInside(front[i]);
        }
      }
    }
  }

  /** Sorting the entries of a partition gives its canonical description. */
  lemma SortedEntriesCanonical(groups: seq<seq<char>>, edges: seq<Edge>)
    requires ArePartition(groups, edges)
    ensures IsCanonical(SortBy(Entries(groups), RepOrd), edges)
  {
    hide Connected, IsClass, Entry, Entries, SortBy;
    var cs := SortBy(Entries(groups), RepOrd);
    EntriesDistinct(groups);
    SortByStrict(Entries(groups), RepOrd);
    EntriesMembers(groups);
    forall i | 0 <= i < |cs| ensures Describes(cs[i], edges) {
      SortByMembers(Entries(groups), RepOrd, cs[i]);
      var j :| 0 <= j < |groups| && |groups[j]| > 1 && cs[i] == Entry(groups[j]);
      EntryDescribes(groups[j], edges);
    }
    forall a, b | a != b && Connected(edges, a, b) ensures Covered(cs, a) {
      ClassIsCovered(groups, edges, a, b);
    }
  }

  lemma ClassIsCovered(groups: seq<seq<char>>, edges: seq<Edge>, a: char, b: char)
    requires ArePartition(groups, edges) && a != b && Connected(edges, a, b)
    ensures Covered(SortBy(Entries(groups), RepOrd), a)
  {
    hide Connected, Entry, Entries, SortBy;
    var cs := SortBy(Entries(groups), RepOrd);
    ConnectedMentioned(edges, a, b);
    assert InSome(groups, a);
    var j :| 0 <= j < |groups| && a in groups[j];
    assert IsClass(groups[j], edges) && b in groups[j];
    assert |groups[j]| > 1;
    EntryDescribes(groups[j], edges);
    EntriesMembers(groups);
    SortByMembers(Entries(groups), RepOrd, Entry(groups[j]));
    var i :| 0 <= i < |cs| && cs[i] == Entry(groups[j]);
  }

  // ------------------------------------------------------------------ build

  /** All pairs of all source files, in reading order. */
  function AllPairs(files: seq<seq<Edge>>): seq<Edge> {
    if files == [] then [] else AllPairs(files[..|files| - 1]) + files[|files| - 1]
  }

  /** Every pair of every file, in reading order. */
  lemma {:induction false} AllPairsConcat(a: seq<seq<Edge>>, b: seq<seq<Edge>>)
    ensures AllPairs(a + b) == AllPairs(a) + AllPairs(b)
    ensures forall pairs :: AllPairs([pairs]) == pairs
    decreases |b|
  {
    forall pairs: seq<Edge> ensures AllPairs([pairs]) == pairs {
      assert [pairs][..0] == [];
    }
    if b == [] {
      assert a + b == a;
    } else {
      assert (a + b)[..|a + b| - 1] == a + b[..|b| - 1];
      AllPairsConcat(a, b[..|b| - 1]);
    }
  }

  lemma {:induction false} AllPairsAre(files: seq<seq<Edge>>, e: Edge)
    ensures e in AllPairs(files) <==> exists i :: 0 <= i < |files| && e in files[i]
  {
    if files != [] {
      var n := |files| - 1;
      AllPairsAre(files[..n], e);
      assert files == files[..n] + [files[n]];
      if i :| 0 <= i < n && e in files[..n][i] { assert e in files[i]; }
    }
  }

  /** The union loop of _build. */
  method UnionAll(files: seq<seq<Edge>>) returns (uf: UF.UnionFind)
    ensures fresh(uf) && uf.Valid() && uf.united == AllPairs(files)
  {
    hide Forest.IsForest, Forest.RankBounded, UF.Explains, UF.RootsMeanConnectivity;
    uf := new UF.UnionFind();
    for f := 0 to |files|
      invariant fresh(uf) && uf.Valid() && uf.united == AllPairs(files[..f])
    {
      var pairs := files[f];
      for p := 0 to |pairs|
        invariant fresh(uf) && uf.Valid() && uf.united == AllPairs(files[..f]) + pairs[..p]
      {
        uf.Union(pairs[p].0, pairs[p].1);
        assert pairs[..p + 1] == pairs[..p] + [pairs[p]];
      }
      assert pairs[..|pairs|] == pairs && files[..f + 1][..f] == files[..f];
    }
    assert files[..|files|] == files;
  }

  /** The loop of _build that turns raw clusters into entries. */
  method Summarise(rawClusters: seq<seq<char>>) returns (clusters: seq<Cluster>)
    ensures clusters == Entries(rawClusters)
  {
    clusters := [];
    for i := 0 to |rawClusters|
      invariant clusters == Entries(rawClusters[..i])
    {
      var members := rawClusters[i];
      assert rawClusters[..i + 1][..i] == rawClusters[..i];
      if |members| <= 1 {
        continue;
      }
      var rep := MinBy(members, Ord);
      var rest := SortBy(Others(members, rep), Ord);
      clusters := clusters + [Cluster(rep, rest)];
    }
    assert rawClusters[..|rawClusters|] == rawClusters;
  }

  /** _build without its input, output and logging: whatever the order of the pairs, the
      result is the canonical description of the equivalence they generate. */
  method Build(files: seq<seq<Edge>>) returns (clusters: seq<Cluster>)
    ensures IsCanonical(clusters, AllPairs(files))
  {
    hide Forest.IsForest, Forest.RankBounded, UF.Explains, UF.RootsMeanConnectivity, IsCanonical, ArePartition,
        Entries, OrderedDict.Group, SortBy;
    var uf := UnionAll(files);
    var rawClusters := uf.Clusters();
    GroupsArePartition(uf.keys, Forest.Roots(uf.F()), uf.united);
    clusters := Summarise(rawClusters);
    clusters := SortBy(clusters, RepOrd);
    SortedEntriesCanonical(rawClusters, uf.united);
  }

  /** Permuted, duplicated or side-swapped sources give the identical list. */
  lemma BuildIsOrderFree(cs: seq<Cluster>, ds: seq<Cluster>, e1: seq<Edge>, e2: seq<Edge>)
    requires forall e :: e in e1 ==> Linked(e2, e.0, e.1)
    requires forall e :: e in e2 ==> Linked(e1, e.0, e.1)
    requires IsCanonical(cs, e1) && IsCanonical(ds, e2)
    ensures cs == ds
  {
    hide Connected, IsCanonical;
    SameLinksSameEquivalence(e1, e2);
    CanonicalUnique(cs, ds, e1, e2);
  }
}
