/** The parent forest of build_dict.py's union-find, as a value: roots, depths,
    path halving, linking by rank, and component sizes. */
module Forest {

  datatype Forest = Forest(parent: map<char, char>, rank: map<char, nat>)

  /** The parent link of x stays inside the key set and, unless x is a root, gains rank. */
  predicate Sound(f: Forest, x: char)
    requires x in f.parent && f.parent.Keys == f.rank.Keys
  {
    && f.parent[x] in f.parent
    && (f.parent[x] != x ==> f.rank[x] < f.rank[f.parent[x]])
  }

  // Instantiated only where Sound(f, x) is mentioned: following links would never end.
  ghost predicate IsForest(f: Forest) {
    && f.parent.Keys == f.rank.Keys
    && (forall x {:trigger Sound(f, x)} :: x in f.parent ==> Sound(f, x))
  }

  /** The elements of larger rank: what a walk along parent links can still visit. */
  ghost function Above(f: Forest, x: char): set<char>
    requires IsForest(f) && x in f.parent
  {
    set y | y in f.parent && f.rank[y] > f.rank[x]
  }

  lemma AboveShrinks(f: Forest, x: char)
    requires IsForest(f) && x in f.parent && f.parent[x] != x
    ensures f.parent[x] in f.parent && f.rank[x] < f.rank[f.parent[x]]
    ensures Above(f, f.parent[x]) < Above(f, x)
  {
    assert Sound(f, x);
    assert f.parent[x] in Above(f, x) && f.parent[x] !in Above(f, f.parent[x]);
  }

  ghost function Root(f: Forest, x: char): char
    requires IsForest(f) && x in f.parent
    decreases Above(f, x)
  {
    if f.parent[x] == x then x else AboveShrinks(f, x); Root(f, f.parent[x])
  }

  /** Number of parent links from x to its root. */
  ghost function Depth(f: Forest, x: char): nat
    requires IsForest(f) && x in f.parent
    decreases Above(f, x)
  {
    if f.parent[x] == x then 0 else AboveShrinks(f, x); 1 + Depth(f, f.parent[x])
  }

  /** Every link gains rank, so the rank of the root bounds the depth. */
  lemma {:induction false} RootRank(f: Forest, x: char)
    requires IsForest(f) && x in f.parent
    ensures var r := Root(f, x); r in f.parent && f.parent[r] == r && f.rank[x] + Depth(f, x) <= f.rank[r]
    decreases Above(f, x)
  {
    if f.parent[x] != x {
      AboveShrinks(f, x);
      RootRank(f, f.parent[x]);
    }
  }

  lemma RootsTable(f: Forest)
    requires IsForest(f)
    ensures Roots(f).Keys == f.parent.Keys
    ensures forall x {:trigger Roots(f)[x]} :: x in f.parent ==>
              Roots(f)[x] == Root(f, x) && Roots(f)[x] in f.parent && f.parent[Roots(f)[x]] == Roots(f)[x]
  {
    forall x | x in f.parent
      ensures Roots(f)[x] == Root(f, x) && Roots(f)[x] in f.parent && f.parent[Roots(f)[x]] == Roots(f)[x]
    {
      RootRank(f, x);
    }
  }

  lemma AtRoot(f: Forest, x: char)
    requires IsForest(f) && x in f.parent
    ensures if f.parent[x] == x then Depth(f, x) == 0 && Root(f, x) == x else Depth(f, x) > 0
  {
  }

  ghost function Roots(f: Forest): map<char, char>
    requires IsForest(f)
  {
    map x | x in f.parent :: Root(f, x)
  }

  ghost function Component(f: Forest, r: char): set<char>
    requires IsForest(f)
  {
    set y | y in f.parent && Root(f, y) == r
  }

  function Pow2(n: nat): (p: nat)
    ensures p >= 1
  {
    if n == 0 then 1 else 2 * Pow2(n - 1)
  }

  /** Powers of two: the exponents add. */
  lemma {:induction false} Pow2Sum(m: nat, n: nat)
    ensures Pow2(m + n) == Pow2(m) * Pow2(n) && Pow2(1) == 2
  {
    assert Pow2(0) == 1 && Pow2(1) == 2 * Pow2(0);
    if m > 0 {
      Pow2Sum(m - 1, n);
      assert Pow2(m - 1 + n) == Pow2(m - 1) * Pow2(n);
      assert 2 * Pow2(m - 1) * Pow2(n) == 2 * (Pow2(m - 1) * Pow2(n));
    }
  }

  lemma {:induction false} Pow2Mono(m: nat, n: nat)
    requires m <= n
    ensures Pow2(m) <= Pow2(n)
    decreases n - m
  {
    if m < n { Pow2Mono(m, n - 1); }
  }

  /** Union by rank: a root of rank k heads at least 2^k elements. */
  ghost predicate RankBounded(f: Forest)
    requires IsForest(f)
  {
    forall r :: r in f.parent && f.parent[r] == r ==> Pow2(f.rank[r]) <= |Component(f, r)|
  }

  /** Every walk to a root is logarithmically short. */
  lemma DepthLogarithmic(f: Forest, x: char)
    requires IsForest(f) && RankBounded(f) && x in f.parent
    ensures Pow2(Depth(f, x)) <= |Component(f, Root(f, x))| <= |f.parent|
  {
    var r := Root(f, x);
    RootRank(f, x);
    Pow2Mono(Depth(f, x), f.rank[r]);
    CardMono(Component(f, r), f.parent.Keys);
  }

  lemma {:induction false} CardMono(s: set<char>, t: set<char>)
    requires s <= t
    ensures |s| <= |t|
  {
    if s != {} {
      var x :| x in s;
      CardMono(s - {x}, t - {x});
    }
  }

  // ------------------------------------------------------- a new singleton

  function AddSingleton(f: Forest, x: char): Forest {
    Forest(f.parent[x := x], f.rank[x := 0])
  }

  lemma AddSingletonIsForest(f: Forest, x: char)
    requires IsForest(f) && x !in f.parent
    ensures IsForest(AddSingleton(f, x))
  {
    var g := AddSingleton(f, x);
    forall y | y in g.parent ensures Sound(g, y) {
      assert y != x ==> Sound(f, y);
    }
  }

  /** A new singleton is its own root and disturbs no other element. */
  lemma AddSingletonKeeps(f: Forest, x: char)
    requires IsForest(f) && x !in f.parent
    ensures IsForest(AddSingleton(f, x))
    ensures Roots(AddSingleton(f, x)) == Roots(f)[x := x]
    ensures RankBounded(f) ==> RankBounded(AddSingleton(f, x))
  {
    AddSingletonIsForest(f, x);
    var g := AddSingleton(f, x);
    forall y | y in f.parent ensures Root(g, y) == Root(f, y) {
      AddSingletonRoot(f, x, y);
    }
    assert Root(g, x) == x;
    if RankBounded(f) {
      forall r | r in g.parent && g.parent[r] == r ensures Pow2(g.rank[r]) <= |Component(g, r)| {
        AddSingletonSize(f, x, r);
      }
    }
  }

  lemma AddSingletonSize(f: Forest, x: char, r: char)
    requires IsForest(f) && x !in f.parent && RankBounded(f)
    requires IsForest(AddSingleton(f, x)) && Roots(AddSingleton(f, x)) == Roots(f)[x := x]
    requires r in AddSingleton(f, x).parent && AddSingleton(f, x).parent[r] == r
    ensures Pow2(AddSingleton(f, x).rank[r]) <= |Component(AddSingleton(f, x), r)|
  {
    var g := AddSingleton(f, x);
    if r == x {
      assert x in Component(g, x);
      CardMono({x}, Component(g, x));
    } else {
      forall y | y in f.parent ensures Root(g, y) == Root(f, y) {
        assert Roots(g)[y] == Roots(f)[y];
      }
      assert Component(f, r) <= Component(g, r);
      CardMono(Component(f, r), Component(g, r));
    }
  }

  lemma {:induction false} AddSingletonRoot(f: Forest, x: char, y: char)
    requires IsForest(f) && x !in f.parent && y in f.parent && IsForest(AddSingleton(f, x))
    ensures Root(AddSingleton(f, x), y) == Root(f, y)
    decreases Above(f, y)
  {
    if f.parent[y] != y {
      AboveShrinks(f, y);
      AddSingletonRoot(f, x, f.parent[y]);
    }
  }

  // ----------------------------------------------------------- path halving

  /** One iteration of the find loop: x is re-attached to its grandparent. */
  function Halve(f: Forest, x: char): Forest
    requires x in f.parent && f.parent[x] in f.parent
  {
    f.(parent := f.parent[x := f.parent[f.parent[x]]])
  }

  lemma HalveIsForest(f: Forest, x: char)
    requires IsForest(f) && x in f.parent && f.parent[x] != x
    ensures f.parent[x] in f.parent && f.parent[f.parent[x]] in f.parent
    ensures IsForest(Halve(f, x))
    ensures Halve(f, x).parent[x] != x
  {
    assert Sound(f, x) && Sound(f, f.parent[x]);
    var g := Halve(f, x);
    forall y | y in g.parent ensures Sound(g, y) {
      assert Sound(f, y);
    }
  }

  lemma {:induction false} HalveRoot(f: Forest, x: char, y: char)
    requires IsForest(f) && x in f.parent && f.parent[x] != x && y in f.parent
    requires f.parent[x] in f.parent && IsForest(Halve(f, x))
    ensures Root(Halve(f, x), y) == Root(f, y)
    ensures f.rank[y] > f.rank[x] ==> Depth(Halve(f, x), y) == Depth(f, y)
    decreases Above(f, y)
  {
    if f.parent[y] != y {
      AboveShrinks(f, y);
      HalveRoot(f, x, f.parent[y]);
      if y == x && f.parent[f.parent[x]] != f.parent[x] {
        AboveShrinks(f, f.parent[x]);
        HalveRoot(f, x, f.parent[f.parent[x]]);
      }
    }
  }

  /** Path halving changes no root and no component. */
  lemma HalveKeeps(f: Forest, x: char)
    requires IsForest(f) && x in f.parent && f.parent[x] != x
    ensures f.parent[x] in f.parent && f.parent[f.parent[x]] in f.parent
    ensures IsForest(Halve(f, x)) && Roots(Halve(f, x)) == Roots(f)
    ensures RankBounded(f) ==> RankBounded(Halve(f, x))
    ensures forall y :: y in f.parent && f.rank[y] > f.rank[x] ==> Depth(Halve(f, x), y) == Depth(f, y)
  {
    HalveIsForest(f, x);
    var g := Halve(f, x);
    forall y | y in f.parent
      ensures Root(g, y) == Root(f, y)
      ensures f.rank[y] > f.rank[x] ==> Depth(g, y) == Depth(f, y)
    {
      HalveRoot(f, x, y);
    }
    SameRootsRankBounded(f, g);
  }

  /** The walk of find after one halving: same root, two links (or the last one) shorter. */
  lemma HalvingStep(f: Forest, x: char)
    requires IsForest(f) && x in f.parent && f.parent[x] != x
    ensures f.parent[x] in f.parent && f.parent[f.parent[x]] in f.parent
    ensures var g, up := Halve(f, x), f.parent[f.parent[x]];
            && g.parent[x] == up
            && IsForest(g) && Root(g, up) == Root(f, x)
            && Depth(g, up) == (if Depth(f, x) == 1 then 0 else Depth(f, x) - 2)
  {
    HalveKeeps(f, x);
    var mid := f.parent[x];
    var up := f.parent[mid];
    AboveShrinks(f, x);
    assert Root(f, mid) == Root(f, x) && Depth(f, x) == 1 + Depth(f, mid);
    if up != mid {
      AboveShrinks(f, mid);
      assert Root(f, up) == Root(f, mid) && Depth(f, mid) == 1 + Depth(f, up);
    }
    assert Roots(Halve(f, x))[up] == Roots(f)[up];
  }

  lemma SameRootsRankBounded(f: Forest, g: Forest)
    requires IsForest(f) && IsForest(g) && f.rank == g.rank && Roots(f) == Roots(g)
    ensures RankBounded(f) ==> RankBounded(g)
  {
    if RankBounded(f) {
      forall r | r in g.parent && g.parent[r] == r ensures Pow2(g.rank[r]) <= |Component(g, r)| {
        RootRank(f, r);
        assert Root(g, r) == r == Roots(g)[r] == Roots(f)[r];
        forall y | y in f.parent ensures Root(f, y) == Root(g, y) {
          assert Roots(f)[y] == Roots(g)[y];
        }
        assert Component(g, r) == Component(f, r);
      }
    }
  }

  // ---------------------------------------------------------------- linking

  /** Attach root child below root top; on a rank tie the new root grows by one. */
  function Link(f: Forest, top: char, child: char): Forest
    requires top in f.rank && child in f.rank
  {
    Forest(f.parent[child := top],
           if f.rank[top] == f.rank[child] then f.rank[top := f.rank[top] + 1] else f.rank)
  }

  ghost predicate Linkable(f: Forest, top: char, child: char) {
    && IsForest(f) && top in f.parent && child in f.parent && top != child
    && f.parent[top] == top && f.parent[child] == child && f.rank[child] <= f.rank[top]
  }

  lemma {:induction false} LinkRoot(f: Forest, top: char, child: char, y: char)
    requires Linkable(f, top, child) && IsForest(Link(f, top, child)) && y in f.parent
    ensures Root(Link(f, top, child), y) == if Root(f, y) == child then top else Root(f, y)
    decreases Above(f, y)
  {
    if f.parent[y] != y {
      AboveShrinks(f, y);
      LinkRoot(f, top, child, f.parent[y]);
    }
  }

  lemma LinkIsForest(f: Forest, top: char, child: char)
    requires Linkable(f, top, child)
    ensures IsForest(Link(f, top, child))
  {
    var g := Link(f, top, child);
    forall y | y in g.parent ensures Sound(g, y) {
      assert Sound(f, y);
    }
  }

  /** Linking merges exactly the two components. */
  lemma LinkRoots(f: Forest, top: char, child: char)
    requires Linkable(f, top, child)
    ensures IsForest(Link(f, top, child))
    ensures Roots(Link(f, top, child)) ==
            map y | y in f.parent :: if Root(f, y) == child then top else Root(f, y)
  {
    LinkIsForest(f, top, child);
    forall y | y in f.parent
      ensures Root(Link(f, top, child), y) == if Root(f, y) == child then top else Root(f, y)
    {
      LinkRoot(f, top, child, y);
    }
  }

  lemma LinkComponent(f: Forest, top: char, child: char, r: char)
    requires Linkable(f, top, child) && IsForest(Link(f, top, child)) && r != child
    ensures Component(Link(f, top, child), r) ==
            if r == top then Component(f, top) + Component(f, child) else Component(f, r)
    ensures Component(f, top) !! Component(f, child)
  {
    forall y | y in f.parent
      ensures Root(Link(f, top, child), y) == if Root(f, y) == child then top else Root(f, y)
    {
      LinkRoot(f, top, child, y);
    }
  }

  lemma LinkSize(f: Forest, top: char, child: char, r: char)
    requires Linkable(f, top, child) && RankBounded(f) && IsForest(Link(f, top, child))
    requires r in f.parent && r != child && f.parent[r] == r
    ensures Pow2(Link(f, top, child).rank[r]) <= |Component(Link(f, top, child), r)|
  {
    hide Component, Root, Sound;
    LinkComponent(f, top, child, r);
    assert Pow2(f.rank[r]) <= |Component(f, r)| && Pow2(f.rank[child]) <= |Component(f, child)|;
    assert Pow2(f.rank[r] + 1) == 2 * Pow2(f.rank[r]);
  }

  /** Linking by rank keeps the size bound: a rank grows only when two equal ones merge. */
  lemma LinkRankBounded(f: Forest, top: char, child: char)
    requires Linkable(f, top, child) && RankBounded(f) && IsForest(Link(f, top, child))
    ensures RankBounded(Link(f, top, child))
  {
    var g := Link(f, top, child);
    forall r | r in g.parent && g.parent[r] == r ensures Pow2(g.rank[r]) <= |Component(g, r)| {
      LinkSize(f, top, child, r);
    }
  }
}
