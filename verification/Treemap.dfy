/** build_treemap of prefix_counter.py: the order in which its stack visits the tree, and how
    faithfully its slash-joined ids encode the tree. */
module Treemap {
  import opened Options
  import opened Strings
  import opened Trie

  datatype Item = Item(id: string, caption: string, value: nat, parent: string, colour: string)

  const COLOURS: seq<string> := ["pink", "royalblue", "lightgray", "cyan", "lightgray", "lightblue", "lightgreen"]

  /** The id of a child: its shown key, below its parent's id unless that is empty. */
  function ChildId(prefix: string, shown: string): string {
    if prefix != [] then prefix + ['/'] + shown else shown
  }

  /** The id up to its last slash: what the treemap takes for the parent. */
  function ParentId(prefix: string): string {
    if prefix == [] then []
    else
      var parts := Split(prefix, '/');
      Join(parts[..|parts| - 1], '/')
  }

  function ItemOf(prefix: string, value: nat, depth: nat): Item {
    Item(prefix,
         if prefix != [] then Split(prefix, '/')[|Split(prefix, '/')| - 1] else "root",
         value,
         ParentId(prefix),
         COLOURS[depth % |COLOURS|])
  }

  /** The id of the node at a path. */
  function Id<K>(path: seq<K>, show: K -> string): string {
    if path == [] then [] else ChildId(Id(path[..|path| - 1], show), show(path[|path| - 1]))
  }

  // -------------------------------------------------------------- traversal

  function Size<K>(t: Trie<K>): nat { 1 + KidsSize(t.kids) }

  function KidsSize<K>(kids: Kids<K>): nat {
    match kids case NoKids => 0 case Kid(_, sub, rest) => Size(sub) + KidsSize(rest)
  }

  function StackSize<K>(stack: seq<(seq<K>, Trie<K>)>): nat {
    if stack == [] then 0 else StackSize(stack[..|stack| - 1]) + Size(stack[|stack| - 1].1)
  }

  /** What is pushed for the children of the node at path, in insertion order. */
  function KidEntries<K>(path: seq<K>, kids: Kids<K>): seq<(seq<K>, Trie<K>)> {
    match kids case NoKids => [] case Kid(k, sub, rest) => [(path + [k], sub)] + KidEntries(path, rest)
  }

  lemma {:induction false} StackSizeAppend<K>(s: seq<(seq<K>, Trie<K>)>, t: seq<(seq<K>, Trie<K>)>)
    ensures StackSize(s + t) == StackSize(s) + StackSize(t)
  {
    if t == [] {
      assert s + t == s;
    } else {
      assert (s + t)[..|s + t| - 1] == s + t[..|t| - 1];
      StackSizeAppend(s, t[..|t| - 1]);
    }
  }

  lemma {:induction false} KidEntriesSize<K>(path: seq<K>, kids: Kids<K>)
    ensures StackSize(KidEntries(path, kids)) == KidsSize(kids)
  {
    if kids.Kid? {
      var first := [(path + [kids.key], kids.sub)];
      KidEntriesSize(path, kids.rest);
      StackSizeAppend(first, KidEntries(path, kids.rest));
      assert first[..0] == [];
    }
  }

  /** The stack after popping its last entry and pushing that node's children. */
  function Pushed<K>(stack: seq<(seq<K>, Trie<K>)>): (r: seq<(seq<K>, Trie<K>)>)
    requires stack != []
    ensures StackSize(r) < StackSize(stack)
  {
    var n := |stack| - 1;
    var (path, node) := stack[n];
    KidEntriesSize(path, node.kids);
    StackSizeAppend(stack[..n], KidEntries(path, node.kids));
    stack[..n] + KidEntries(path, node.kids)
  }

  /** The nodes in the order the stack loop emits them, with their paths. */
  function Visit<K>(stack: seq<(seq<K>, Trie<K>)>): (r: seq<(seq<K>, Trie<K>)>)
    ensures |r| == StackSize(stack)
    decreases StackSize(stack)
  {
    if stack == [] then []
    else
      var n := |stack| - 1;
      KidEntriesSize(stack[n].0, stack[n].1.kids);
      StackSizeAppend(stack[..n], KidEntries(stack[n].0, stack[n].1.kids));
      [stack[n]] + Visit(Pushed(stack))
  }

  lemma VisitUnfold<K>(stack: seq<(seq<K>, Trie<K>)>)
    ensures Visit(stack) == if stack == [] then [] else [stack[|stack| - 1]] + Visit(Pushed(stack))
  {
  }

  /** The emitted items. */
  function Items<K>(visits: seq<(seq<K>, Trie<K>)>, show: K -> string): (r: seq<Item>)
    ensures |r| == |visits|
    ensures forall i :: 0 <= i < |r| ==>
              r[i] == ItemOf(Id(visits[i].0, show), visits[i].1.count, Depth(visits[i].1))
  {
    seq(|visits|, i requires 0 <= i < |visits| => ItemOf(Id(visits[i].0, show), visits[i].1.count, Depth(visits[i].1)))
  }

  lemma ItemsCons<K>(v: (seq<K>, Trie<K>), visits: seq<(seq<K>, Trie<K>)>, show: K -> string)
    ensures Items([v] + visits, show) == [ItemOf(Id(v.0, show), v.1.count, Depth(v.1))] + Items(visits, show)
  {
    hide ItemOf, Id, Depth;
  }

  // ------------------------------------------------------ the order of visit

  /** The children are pushed in the order of their insertion. */
  lemma {:induction false} KidEntriesInOrder<K>(path: seq<K>, kids: Kids<K>)
    ensures |KidEntries(path, kids)| == |KeysOf(kids)|
    ensures forall i :: 0 <= i < |KeysOf(kids)| ==> KidEntries(path, kids)[i].0 == path + [KeysOf(kids)[i]]
  {
    if kids.Kid? { KidEntriesInOrder(path, kids.rest); }
  }

  /** A node before its children, and of these the last inserted first. */
  function Preorder<K>(path: seq<K>, node: Trie<K>): seq<(seq<K>, Trie<K>)>
    decreases Size(node), 0
  {
    KidEntriesSize(path, node.kids);
    [(path, node)] + Preorders(KidEntries(path, node.kids))
  }

  function Preorders<K>(entries: seq<(seq<K>, Trie<K>)>): seq<(seq<K>, Trie<K>)>
    decreases StackSize(entries), 1
  {
    if entries == [] then []
    else
      var n := |entries| - 1;
      Preorder(entries[n].0, entries[n].1) + Preorders(entries[..n])
  }

  /** The stack loop visits the nodes in that recursive order. */
  lemma {:induction false} VisitIsPreorder<K>(stack: seq<(seq<K>, Trie<K>)>)
    ensures Visit(stack) == Preorders(stack)
    decreases StackSize(stack)
  {
    hide Visit, Preorder;
    VisitUnfold(stack);
    if stack != [] {
      var n := |stack| - 1;
      var (path, node) := stack[n];
      VisitIsPreorder(Pushed(stack));
      PreordersConcat(stack[..n], KidEntries(path, node.kids));
      PreorderUnfold(path, node);
    }
  }

  lemma PreorderUnfold<K>(path: seq<K>, node: Trie<K>)
    ensures Preorder(path, node) == [(path, node)] + Preorders(KidEntries(path, node.kids))
  {
  }

  lemma {:induction false} PreordersConcat<K>(below: seq<(seq<K>, Trie<K>)>, above: seq<(seq<K>, Trie<K>)>)
    ensures Preorders(below + above) == Preorders(above) + Preorders(below)
    decreases |above|
  {
    hide Preorder;
    if above == [] {
      assert below + above == below;
    } else {
      var n := |above| - 1;
      assert (below + above)[..|below + above| - 1] == below + above[..n];
      PreordersConcat(below, above[..n]);
    }
  }

  // ------------------------------------------------- every node exactly once

  /** A child's key occurs once among its siblings, everywhere below. */
  predicate DistinctKids<K(==)>(kids: Kids<K>) {
    match kids
    case NoKids => true
    case Kid(k, sub, rest) => Find(rest, k).None? && DistinctKids(sub.kids) && DistinctKids(rest)
  }

  /** Neither path is a prefix of the other. */
  predicate Apart<K(==)>(p: seq<K>, q: seq<K>) {
    !(p <= q) && !(q <= p)
  }

  predicate StackOk<K(==)>(stack: seq<(seq<K>, Trie<K>)>) {
    && (forall i, j :: 0 <= i < j < |stack| ==> Apart(stack[i].0, stack[j].0))
    && (forall i :: 0 <= i < |stack| ==> DistinctKids(stack[i].1.kids))
  }

  /** n is the node at p below the entry e. */
  predicate Hangs<K(==)>(e: (seq<K>, Trie<K>), p: seq<K>, n: Trie<K>) {
    e.0 <= p && At(e.1, p[|e.0|..]) == Some(n)
  }

  predicate HangsSomewhere<K(==)>(stack: seq<(seq<K>, Trie<K>)>, p: seq<K>, n: Trie<K>) {
    exists i :: 0 <= i < |stack| && Hangs(stack[i], p, n)
  }

  lemma {:induction false} KidEntriesAre<K>(path: seq<K>, kids: Kids<K>)
    requires DistinctKids(kids)
    ensures forall i :: 0 <= i < |KidEntries(path, kids)| ==>
              var e := KidEntries(path, kids)[i];
              && |e.0| == |path| + 1 && e.0[..|path|] == path
              && Find(kids, e.0[|path|]) == Some(e.1) && DistinctKids(e.1.kids)
    ensures forall i, j :: 0 <= i < j < |KidEntries(path, kids)| ==>
              KidEntries(path, kids)[i].0[|path|] != KidEntries(path, kids)[j].0[|path|]
  {
    if kids.Kid? {
      KidEntriesAre(path, kids.rest);
      var rest := KidEntries(path, kids.rest);
      forall i | 0 <= i < |rest| ensures rest[i].0[|path|] != kids.key {
        assert Find(kids.rest, rest[i].0[|path|]).Some?;
      }
    }
  }

  lemma {:induction false} FindIsEntry<K>(path: seq<K>, kids: Kids<K>, k: K) returns (i: nat)
    requires DistinctKids(kids) && Find(kids, k).Some?
    ensures i < |KidEntries(path, kids)| && KidEntries(path, kids)[i] == (path + [k], Find(kids, k).value)
  {
    if kids.key == k {
      i := 0;
    } else {
      i := FindIsEntry(path, kids.rest, k);
      i := i + 1;
    }
  }

  /** One step keeps the subtrees on the stack apart. */
  lemma PushedOk<K>(stack: seq<(seq<K>, Trie<K>)>)
    requires stack != [] && StackOk(stack)
    ensures StackOk(Pushed(stack))
  {
    var n := |stack| - 1;
    var (path, node) := stack[n];
    var kids := KidEntries(path, node.kids);
    KidEntriesAre(path, node.kids);
    var next := Pushed(stack);
    forall i, j | 0 <= i < j < |next| ensures Apart(next[i].0, next[j].0) {
      if j >= n {
        assert next[j] == kids[j - n];
        if i >= n {
          assert next[i] == kids[i - n];
        } else {
          assert next[i] == stack[i] && Apart(stack[i].0, path);
          ApartBelow(stack[i].0, path, next[j].0);
        }
      }
    }
    forall i | 0 <= i < |next| ensures DistinctKids(next[i].1.kids) {
      if i >= n { assert next[i] == kids[i - n]; }
    }
  }

  lemma ApartBelow<K>(p: seq<K>, q: seq<K>, r: seq<K>)
    requires Apart(p, q) && |r| == |q| + 1 && r[..|q|] == q
    ensures Apart(p, r)
  {
    assert q <= r;
    if p <= r { PrefixesCompare(p, q, r); }
  }

  lemma PrefixesCompare<K>(p: seq<K>, q: seq<K>, r: seq<K>)
    requires p <= r && q <= r
    ensures p <= q || q <= p
  {
    if |p| <= |q| {
      assert p == r[..|p|] == q[..|p|];
    } else {
      assert q == r[..|q|] == p[..|q|];
    }
  }

  /** Popping accounts for the popped node and leaves the rest of its subtree on the stack. */
  lemma PushedHangs<K>(stack: seq<(seq<K>, Trie<K>)>, p: seq<K>, n: Trie<K>)
    requires stack != [] && StackOk(stack)
    ensures HangsSomewhere(stack, p, n) <==> (p, n) == stack[|stack| - 1] || HangsSomewhere(Pushed(stack), p, n)
  {
    if HangsSomewhere(stack, p, n) && (p, n) != stack[|stack| - 1] { StaysOnStack(stack, p, n); }
    if (p, n) == stack[|stack| - 1] {
      assert p[|p|..] == [];
      assert Hangs(stack[|stack| - 1], p, n);
    }
    if HangsSomewhere(Pushed(stack), p, n) { WasOnStack(stack, p, n); }
  }

  lemma StaysOnStack<K>(stack: seq<(seq<K>, Trie<K>)>, p: seq<K>, n: Trie<K>)
    requires stack != [] && StackOk(stack) && HangsSomewhere(stack, p, n) && (p, n) != stack[|stack| - 1]
    ensures HangsSomewhere(Pushed(stack), p, n)
  {
    hide Hangs, DistinctKids, KidEntries, StackSize;
    var m := |stack| - 1;
    var (path, node) := stack[m];
    var next := Pushed(stack);
    var i :| 0 <= i < |stack| && Hangs(stack[i], p, n);
    if i < m {
      assert next[i] == stack[i];
    } else {
      var c := HangsFromKid(path, node, p, n);
      assert next[m + c] == KidEntries(path, node.kids)[c];
    }
  }

  /** What hangs from a node without being it hangs from one of its children. */
  lemma HangsFromKid<K>(path: seq<K>, node: Trie<K>, p: seq<K>, n: Trie<K>) returns (c: nat)
    requires DistinctKids(node.kids) && Hangs((path, node), p, n) && (p, n) != (path, node)
    ensures c < |KidEntries(path, node.kids)| && Hangs(KidEntries(path, node.kids)[c], p, n)
  {
    hide DistinctKids, KidEntries;
    var q := p[|path|..];
    assert q == [] ==> p == path && n == node;
    c := FindIsEntry(path, node.kids, q[0]);
    var e := KidEntries(path, node.kids)[c];
    assert p == path + q && p[..|path| + 1] == e.0 && p[|path| + 1..] == q[1..];
  }

  lemma WasOnStack<K>(stack: seq<(seq<K>, Trie<K>)>, p: seq<K>, n: Trie<K>)
    requires stack != [] && StackOk(stack) && HangsSomewhere(Pushed(stack), p, n)
    ensures HangsSomewhere(stack, p, n)
  {
    var m := |stack| - 1;
    var (path, node) := stack[m];
    KidEntriesAre(path, node.kids);
    var i :| 0 <= i < |Pushed(stack)| && Hangs(Pushed(stack)[i], p, n);
    if i < m {
      assert stack[i] == Pushed(stack)[i];
    } else {
      var e := KidEntries(path, node.kids)[i - m];
      assert Pushed(stack)[i] == e;
      KidHangs(path, node, e, p, n);
      assert Hangs(stack[m], p, n);
    }
  }

  lemma KidHangs<K>(path: seq<K>, node: Trie<K>, e: (seq<K>, Trie<K>), p: seq<K>, n: Trie<K>)
    requires |e.0| == |path| + 1 && e.0[..|path|] == path && Find(node.kids, e.0[|path|]) == Some(e.1)
    requires Hangs(e, p, n)
    ensures Hangs((path, node), p, n)
  {
    var q := p[|path|..];
    assert p[..|e.0|] == e.0;
    assert p[..|path|] == e.0[..|path|] == path;
    assert q[0] == e.0[|path|] && q[1..] == p[|e.0|..];
  }

  /** The loop emits exactly the nodes hanging from its stack, each path once. */
  lemma {:induction false} VisitOnce<K(!new)>(stack: seq<(seq<K>, Trie<K>)>)
    requires StackOk(stack)
    ensures forall p, n :: (p, n) in Visit(stack) <==> HangsSomewhere(stack, p, n)
    ensures forall i, j :: 0 <= i < j < |Visit(stack)| ==> Visit(stack)[i].0 != Visit(stack)[j].0
    decreases StackSize(stack)
  {
    hide Hangs, StackOk, DistinctKids;
    if stack != [] {
      var m := |stack| - 1;
      var next := Pushed(stack);
      var tail := Visit(next);
      PushedOk(stack);
      VisitOnce(next);
      forall p, n ensures (p, n) in Visit(stack) <==> HangsSomewhere(stack, p, n) {
        PushedHangs(stack, p, n);
      }
      forall j | 0 <= j < |tail| ensures tail[j].0 != stack[m].0 {
        assert (tail[j].0, tail[j].1) in tail;
        NotBelowItself(stack, tail[j].0, tail[j].1);
      }
    }
  }

  /** Nothing left on the stack hangs at the path just emitted. */
  lemma NotBelowItself<K>(stack: seq<(seq<K>, Trie<K>)>, p: seq<K>, n: Trie<K>)
    requires stack != [] && StackOk(stack) && HangsSomewhere(Pushed(stack), p, n)
    ensures p != stack[|stack| - 1].0
  {
    var m := |stack| - 1;
    var (path, node) := stack[m];
    KidEntriesAre(path, node.kids);
    var i :| 0 <= i < |Pushed(stack)| && Hangs(Pushed(stack)[i], p, n);
    if i < m {
      assert Pushed(stack)[i] == stack[i] && Apart(stack[i].0, path);
    } else {
      assert Pushed(stack)[i] == KidEntries(path, node.kids)[i - m];
    }
  }

  /** Starting from the root, every node of the tree is emitted exactly once. */
  lemma TreemapVisitsTree<K(!new)>(t: Trie<K>)
    requires DistinctKids(t.kids)
    ensures var v := Visit([([], t)]);
            && |v| == Size(t)
            && (forall i, j :: 0 <= i < j < |v| ==> v[i].0 != v[j].0)
            && (forall p, n :: (p, n) in v <==> At(t, p) == Some(n))
  {
    var stack: seq<(seq<K>, Trie<K>)> := [([], t)];
    VisitOnce(stack);
    assert stack[..0] == [];
    forall p, n ensures HangsSomewhere(stack, p, n) <==> At(t, p) == Some(n) {
      assert p[0..] == p;
      if At(t, p) == Some(n) { assert Hangs(stack[0], p, n); }
    }
  }

  // --------------------------------------------------------------------- ids

  predicate NoSlash(s: string) {
    '/' !in s
  }

  /** A parent field names the parent exactly when the child's key shows no slash, or is one
      leading slash and no other below an empty prefix. */
  lemma ParentOfChild(prefix: string, shown: string)
    ensures ParentId(ChildId(prefix, shown)) == prefix
            <==> NoSlash(shown) || (prefix == [] && shown[0] == '/' && NoSlash(shown[1..]))
  {
    var parts := Split(shown, '/');
    JoinSplit(shown, '/');
    if prefix == [] {
      if NoSlash(shown) {
        SplitFront(shown, [], '/');
      } else {
        FrontJoin(parts);
        SlashSplits(shown);
        if shown[0] == '/' {
          assert Split(shown, '/') == [[]] + Split(shown[1..], '/');
          OnePartIffNoSlash(shown[1..]);
        } else {
          assert parts[0] != [];
        }
      }
    } else {
      SplitAppend(prefix, shown);
      var before := Split(prefix, '/');
      JoinSplit(prefix, '/');
      assert (before + parts)[..|before| + |parts| - 1] == before + parts[..|parts| - 1];
      if NoSlash(shown) {
        SplitFront(shown, [], '/');
        assert before + parts[..0] == before;
      } else {
        SlashSplits(shown);
        JoinConcat(before, parts[..|parts| - 1]);
      }
    }
  }

  lemma OnePartIffNoSlash(s: string)
    ensures |Split(s, '/')| == 1 <==> NoSlash(s)
  {
    if NoSlash(s) { SplitFront(s, [], '/'); } else { SlashSplits(s); }
  }

  lemma {:induction false} SlashSplits(s: string)
    requires !NoSlash(s)
    ensures |Split(s, '/')| >= 2
  {
    if s[0] != '/' { SlashSplits(s[1..]); }
  }

  /** Joining all but the last of several parts is empty only for two parts with an empty first. */
  lemma FrontJoin(parts: seq<string>)
    requires |parts| >= 1
    ensures |parts| >= 2 ==> (Join(parts[..|parts| - 1], '/') == [] <==> |parts| == 2 && parts[0] == [])
  {
  }

  lemma {:induction false} JoinConcat(s: seq<string>, t: seq<string>)
    requires s != [] && t != []
    ensures Join(s + t, '/') == Join(s, '/') + ['/'] + Join(t, '/')
    decreases |s|
  {
    assert (s + t)[1..] == s[1..] + t;
    if |s| > 1 { JoinConcat(s[1..], t); }
  }

  lemma SplitAppend(s: string, t: string)
    ensures Split(s + ['/'] + t, '/') == Split(s, '/') + Split(t, '/')
  {
    JoinSplit(s, '/');
    JoinSplit(t, '/');
    JoinConcat(Split(s, '/'), Split(t, '/'));
    SplitJoin(Split(s, '/') + Split(t, '/'), '/');
  }

  /** No shown key holds a slash. */
  predicate SlashFree<K>(kids: Kids<K>, show: K -> string) {
    match kids
    case NoKids => true
    case Kid(k, sub, rest) => NoSlash(show(k)) && SlashFree(sub.kids, show) && SlashFree(rest, show)
  }

  predicate Shows<K>(kids: Kids<K>, show: K -> string, s: string) {
    kids.Kid? && (show(kids.key) == s || Shows(kids.rest, show, s))
  }

  /** Siblings show differently, everywhere in the tree. */
  predicate Unambiguous<K>(kids: Kids<K>, show: K -> string) {
    match kids
    case NoKids => true
    case Kid(k, sub, rest) =>
      !Shows(rest, show, show(k)) && Unambiguous(sub.kids, show) && Unambiguous(rest, show)
  }

  function ShownPath<K>(path: seq<K>, show: K -> string): (r: seq<string>)
    ensures |r| == |path| && forall i :: 0 <= i < |r| ==> r[i] == show(path[i])
  {
    seq(|path|, i requires 0 <= i < |path| => show(path[i]))
  }

  lemma {:induction false} FindShows<K>(kids: Kids<K>, show: K -> string, k: K)
    requires Find(kids, k).Some?
    ensures Shows(kids, show, show(k))
    ensures SlashFree(kids, show) ==> NoSlash(show(k)) && SlashFree(Find(kids, k).value.kids, show)
    ensures Unambiguous(kids, show) ==> Unambiguous(Find(kids, k).value.kids, show)
  {
    if kids.key != k { FindShows(kids.rest, show, k); }
  }

  lemma {:induction false} ShownOnce<K>(kids: Kids<K>, show: K -> string, j: K, k: K)
    requires Unambiguous(kids, show) && Find(kids, j).Some? && Find(kids, k).Some? && show(j) == show(k)
    ensures j == k
  {
    if kids.key != j && kids.key != k {
      ShownOnce(kids.rest, show, j, k);
    } else if kids.key != j {
      FindShows(kids.rest, show, j);
    } else if kids.key != k {
      FindShows(kids.rest, show, k);
    }
  }

  lemma {:induction false} SlashFreePath<K>(t: Trie<K>, show: K -> string, p: seq<K>)
    requires SlashFree(t.kids, show) && At(t, p).Some?
    ensures forall i :: 0 <= i < |p| ==> NoSlash(show(p[i]))
    ensures p != [] && !Shows(t.kids, show, []) ==> show(p[0]) != []
    decreases |p|
  {
    if p != [] {
      FindShows(t.kids, show, p[0]);
      SlashFreePath(Find(t.kids, p[0]).value, show, p[1..]);
      assert forall i :: 0 < i < |p| ==> p[i] == p[1..][i - 1];
    }
  }

  lemma {:induction false} ShownPathUnique<K>(t: Trie<K>, show: K -> string, p: seq<K>, q: seq<K>)
    requires Unambiguous(t.kids, show) && At(t, p).Some? && At(t, q).Some? && ShownPath(p, show) == ShownPath(q, show)
    ensures p == q
    decreases |p|
  {
    assert |q| == |ShownPath(q, show)| == |p|;
    if p != [] {
      assert show(p[0]) == ShownPath(p, show)[0] == show(q[0]);
      ShownOnce(t.kids, show, p[0], q[0]);
      FindShows(t.kids, show, p[0]);
      assert ShownPath(p[1..], show) == ShownPath(p, show)[1..] == ShownPath(q[1..], show);
      ShownPathUnique(Find(t.kids, p[0]).value, show, p[1..], q[1..]);
      assert p == [p[0]] + p[1..] && q == [q[0]] + q[1..];
    }
  }

  /** The id of a node joins its shown path, unless its first part shows as nothing. */
  lemma {:induction false} IdIsJoin<K>(path: seq<K>, show: K -> string)
    requires path != [] && show(path[0]) != []
    ensures Id(path, show) == Join(ShownPath(path, show), '/') && Id(path, show) != []
    decreases |path|
  {
    var front := path[..|path| - 1];
    var parts := ShownPath(path, show);
    if front == [] {
      assert parts == [show(path[0])];
    } else {
      IdIsJoin(front, show);
      assert parts == ShownPath(front, show) + [show(path[|path| - 1])];
      JoinConcat(ShownPath(front, show), [show(path[|path| - 1])]);
    }
  }

  /** Without slashes in shown keys, and with no root child showing as nothing, splitting an id
      gives back the shown path; the parent field is the parent's id and the caption the key. */
  lemma IdsSplitBack<K>(t: Trie<K>, show: K -> string, p: seq<K>)
    requires SlashFree(t.kids, show) && !Shows(t.kids, show, []) && At(t, p).Some? && p != []
    ensures Id(p, show) != [] && Split(Id(p, show), '/') == ShownPath(p, show)
    ensures ParentId(Id(p, show)) == Id(p[..|p| - 1], show)
    ensures ItemOf(Id(p, show), t.count, Depth(t)).caption == show(p[|p| - 1])
  {
    SlashFreePath(t, show, p);
    IdIsJoin(p, show);
    SplitJoin(ShownPath(p, show), '/');
    ParentOfChild(Id(p[..|p| - 1], show), show(p[|p| - 1]));
  }

  ghost predicate DistinctIds<K(!new)>(t: Trie<K>, show: K -> string) {
    forall p, q :: At(t, p).Some? && At(t, q).Some? && Id(p, show) == Id(q, show) ==> p == q
  }

  /** With slash-free keys, different nodes get different ids exactly when siblings show
      differently everywhere and no child of the root shows as nothing. */
  lemma DistinctIdsIff<K(!new)>(t: Trie<K>, show: K -> string)
    requires DistinctKids(t.kids) && SlashFree(t.kids, show)
    ensures DistinctIds(t, show) <==> Unambiguous(t.kids, show) && !Shows(t.kids, show, [])
  {
    if Unambiguous(t.kids, show) && !Shows(t.kids, show, []) {
      forall p, q | At(t, p).Some? && At(t, q).Some? && Id(p, show) == Id(q, show) ensures p == q {
        if p != [] { IdsSplitBack(t, show, p); }
        if q != [] { IdsSplitBack(t, show, q); }
        if p != [] && q != [] { ShownPathUnique(t, show, p, q); }
      }
    }
    if Shows(t.kids, show, []) {
      var k := ShowsWhich(t.kids, show, []);
      IdUnfold([k], show);
      IdUnfold([], show);
      assert At(t, [k]).Some? && [k][..0] == [] && Id([k], show) == Id([], show);
    }
    if !Unambiguous(t.kids, show) {
      var p, j, k := AmbiguousSiblings(t, show);
      assert (p + [j])[..|p|] == p && (p + [k])[..|p|] == p;
      SameShownSameId(p + [j], p + [k], show, |p|);
      assert Id(p + [j], show) == Id(p + [k], show) && (p + [j])[|p|] != (p + [k])[|p|];
    }
  }

  lemma {:induction false} ShowsWhich<K>(kids: Kids<K>, show: K -> string, s: string) returns (k: K)
    requires Shows(kids, show, s)
    ensures Find(kids, k).Some? && show(k) == s
  {
    if show(kids.key) == s { k := kids.key; } else { k := ShowsWhich(kids.rest, show, s); }
  }

  /** Two siblings below p that show alike. */
  lemma {:induction false} AmbiguousSiblings<K>(t: Trie<K>, show: K -> string) returns (p: seq<K>, j: K, k: K)
    requires DistinctKids(t.kids) && !Unambiguous(t.kids, show)
    ensures At(t, p + [j]).Some? && At(t, p + [k]).Some? && j != k && show(j) == show(k)
    decreases t.kids
  {
    var kids := t.kids;
    if Shows(kids.rest, show, show(kids.key)) {
      k := ShowsWhich(kids.rest, show, show(kids.key));
      p, j := [], kids.key;
      assert p + [j] == [j] && p + [k] == [k];
    } else if !Unambiguous(kids.sub.kids, show) {
      p, j, k := AmbiguousSiblings(kids.sub, show);
      assert ([kids.key] + p + [j])[1..] == p + [j] && ([kids.key] + p + [k])[1..] == p + [k];
      p := [kids.key] + p;
    } else {
      p, j, k := AmbiguousSiblings(t.(kids := kids.rest), show);
      assert (p + [j])[0] != kids.key && (p + [k])[0] != kids.key;
    }
  }

  // ----------------------------------------------------- ids of arbitrary keys

  /** The slash-separated parts of all shown keys along a path, from the first one that shows as
      something. */
  function Parts<K>(path: seq<K>, show: K -> string): seq<string> {
    if path == [] then []
    else
      var front, last := Parts(path[..|path| - 1], show), show(path[|path| - 1]);
      if front == [] && last == [] then [] else front + Split(last, '/')
  }

  /** An id is its path's parts, joined. */
  lemma {:induction false} IdIsParts<K>(path: seq<K>, show: K -> string)
    ensures Id(path, show) == [] <==> Parts(path, show) == []
    ensures Id(path, show) != [] ==> Split(Id(path, show), '/') == Parts(path, show)
    decreases |path|
  {
    hide Split;
    if path != [] {
      var front, last := path[..|path| - 1], show(path[|path| - 1]);
      IdIsParts(front, show);
      if Id(front, show) != [] { SplitAppend(Id(front, show), last); }
    }
  }

  /** Whatever the keys show as, two paths get the same id exactly when they have the same parts. */
  lemma SameIdIff<K>(p: seq<K>, q: seq<K>, show: K -> string)
    ensures Id(p, show) == Id(q, show) <==> Parts(p, show) == Parts(q, show)
  {
    hide Split, Join, Id, Parts;
    IdIsParts(p, show);
    IdIsParts(q, show);
    JoinSplit(Id(p, show), '/');
    JoinSplit(Id(q, show), '/');
  }

  /** Hence the nodes of any tree have distinct ids exactly when no two paths in it have the
      same parts. */
  lemma DistinctIdsIffParts<K(!new)>(t: Trie<K>, show: K -> string)
    ensures DistinctIds(t, show) <==>
            forall p, q :: At(t, p).Some? && At(t, q).Some? && Parts(p, show) == Parts(q, show) ==> p == q
  {
    hide Id, Parts, At;
    if DistinctIds(t, show) {
      forall p, q | At(t, p).Some? && At(t, q).Some? && Parts(p, show) == Parts(q, show) ensures p == q {
        SameIdIff(p, q, show);
      }
    } else {
      var p, q :| At(t, p).Some? && At(t, q).Some? && Id(p, show) == Id(q, show) && p != q;
      SameIdIff(p, q, show);
    }
  }

  // ------------------------------------------------- the map of some tuples

  lemma {:induction false} RepresentedKidsDistinct<K(!new)>(kids: Kids<K>, added: seq<seq<K>>)
    requires KidsRepresent(kids, added)
    ensures DistinctKids(kids)
  {
    match kids
    case NoKids =>
    case Kid(k, sub, rest) =>
      RepresentedKidsDistinct(sub.kids, Below(added, k));
      RepresentedKidsDistinct(rest, added);
  }

  /** The treemap of a tree built from tuples: one item for the root and one for every proper
      non-empty prefix of a tuple, valued by the tuples running through it, and no node is
      worth less than its children together. */
  lemma TreemapOfTuples<K(!new)>(values: seq<seq<K>>, draws: seq<nat>, show: K -> string)
    requires |draws| == |values|
    ensures var v := Visit([([], FromTuples(values, draws))]);
            && (forall i, j :: 0 <= i < j < |v| ==> v[i].0 != v[j].0)
            && (forall p :: (exists n :: (p, n) in v) <==> p == [] || CountMatching(values, p) > 0)
            && (forall p: seq<K>, n: Trie<K> :: (p, n) in v ==>
                n.count == CountMatching(values, p) && KidCounts(n.kids) <= n.count)
  {
    hide Visit, FromTuples;
    var t := FromTuples(values, draws);
    FromTuplesRepresents(values, draws);
    RepresentedKidsDistinct(t.kids, values);
    TreemapVisitsTree(t);
    var v := Visit([([], t)]);
    forall p ensures (exists n :: (p, n) in v) <==> p == [] || CountMatching(values, p) > 0 {
      NodeMeaning(values, draws, p);
      if At(t, p).Some? { assert (p, At(t, p).value) in v; }
    }
    forall p: seq<K>, n: Trie<K> | (p, n) in v
      ensures n.count == CountMatching(values, p) && KidCounts(n.kids) <= n.count
    {
      NodeMeaning(values, draws, p);
    }
  }

  /** The item of the node at p: its own count, the colour of the longest tuple through it, and
      for a proper node its last key and the id of its parent in the tree. */
  ghost predicate IsItemOf<K>(item: Item, values: seq<seq<K>>, p: seq<K>, show: K -> string) {
    && item.id == Id(p, show) && item.value == CountMatching(values, p)
    && (exists d: nat :: IsLongest(SuffixesAt(values, p), d) && item.colour == ColourAt(d % 7))
    && if p == [] then item.id == [] && item.caption == "root" && item.value == |values| && item.parent == []
       else item.caption == show(p[|p| - 1]) && item.parent == Id(p[..|p| - 1], show) && item.id != []
  }

  /** The seven colours, by depth. */
  function ColourAt(i: nat): string {
    match i
    case 0 => "pink"
    case 1 => "royalblue"
    case 3 => "cyan"
    case 5 => "lightblue"
    case 6 => "lightgreen"
    case _ => "lightgray"
  }

  /** One right item for the root and every proper prefix of a tuple, all under distinct ids. */
  ghost predicate IsTreemapOf<K>(items: seq<Item>, visits: seq<(seq<K>, Trie<K>)>, values: seq<seq<K>>,
                                 show: K -> string) {
    && |items| == |visits|
    && (forall i :: 0 <= i < |items| ==> IsItemOf(items[i], values, visits[i].0, show))
    && (forall i, j :: 0 <= i < j < |items| ==> items[i].id != items[j].id)
  }

  /** What a caller must know of the keys, the elements of the tuples but their last ones: none
      shows a slash, no first one shows as nothing, and different ones in the same place, after
      the same beginning, show differently. */
  ghost predicate ShownClearly<K>(values: seq<seq<K>>, show: K -> string) {
    && (forall i, n :: 0 <= i < |values| && 0 <= n < |values[i]| - 1 ==> NoSlash(show(values[i][n])))
    && (forall i :: 0 <= i < |values| && |values[i]| >= 2 ==> show(values[i][0]) != [])
    && (forall i, j, n ::
          && 0 <= i < |values| && 0 <= j < |values| && 0 <= n < |values[i]| - 1 && n < |values[j]| - 1
          && values[i][..n] == values[j][..n] && show(values[i][n]) == show(values[j][n])
          ==> values[i][n] == values[j][n])
  }

  /** The whole treemap of some tuples is right exactly when their keys are shown clearly. */
  lemma TreemapItems<K(!new)>(values: seq<seq<K>>, draws: seq<nat>, show: K -> string)
    requires |draws| == |values|
    ensures var v := Visit([([], FromTuples(values, draws))]);
            IsTreemapOf(Items(v, show), v, values, show) <==> ShownClearly(values, show)
  {
    hide FromTuples, Visit, Items, IsTreemapOf, ShownClearly;
    if ShownClearly(values, show) {
      ClearKeysInTree(values, draws, show);
      TreemapItemsOfTree(values, draws, show);
    } else if IsTreemapOf(Items(Visit([([], FromTuples(values, draws))]), show),
                          Visit([([], FromTuples(values, draws))]), values, show) {
      RightItemsShowClearly(values, draws, show);
    }
  }

  // .......................................................... sufficient

  lemma {:induction false} TupleThrough<K>(values: seq<seq<K>>, p: seq<K>) returns (i: nat)
    requires p != [] && CountMatching(values, p) > 0
    ensures i < |values| && |values[i]| > |p| && values[i][..|p|] == p
  {
    var n := |values| - 1;
    if Matches(values[n], p) { i := n; } else { i := TupleThrough(values[..n], p); }
  }

  lemma {:induction false} CountsThrough<K>(values: seq<seq<K>>, i: nat, p: seq<K>)
    requires i < |values| && Matches(values[i], p)
    ensures CountMatching(values, p) > 0
  {
    var n := |values| - 1;
    if i < n { CountsThrough(values[..n], i, p); }
  }

  /** A node whose key shows a slash. */
  lemma {:induction false} SlashyNode<K>(t: Trie<K>, show: K -> string) returns (p: seq<K>, k: K)
    requires DistinctKids(t.kids) && !SlashFree(t.kids, show)
    ensures At(t, p + [k]).Some? && !NoSlash(show(k))
    decreases t.kids
  {
    var kids := t.kids;
    if !NoSlash(show(kids.key)) {
      p, k := [], kids.key;
      assert p + [k] == [k];
    } else if !SlashFree(kids.sub.kids, show) {
      p, k := SlashyNode(kids.sub, show);
      assert ([kids.key] + p + [k])[1..] == p + [k];
      p := [kids.key] + p;
    } else {
      p, k := SlashyNode(t.(kids := kids.rest), show);
      assert (p + [k])[0] != kids.key;
    }
  }

  /** A node below p with key k comes from a tuple with k, not last, after p. */
  lemma TupleOfNode<K(!new)>(values: seq<seq<K>>, draws: seq<nat>, p: seq<K>, k: K) returns (i: nat)
    requires |draws| == |values| && At(FromTuples(values, draws), p + [k]).Some?
    ensures i < |values| && |p| < |values[i]| - 1 && values[i][..|p|] == p && values[i][|p|] == k
  {
    NodeMeaning(values, draws, p + [k]);
    i := TupleThrough(values, p + [k]);
    assert values[i][..|p|] == values[i][..|p| + 1][..|p|];
  }

  lemma ClearKeysInTree<K(!new)>(values: seq<seq<K>>, draws: seq<nat>, show: K -> string)
    requires |draws| == |values| && ShownClearly(values, show)
    ensures var kids := FromTuples(values, draws).kids;
            SlashFree(kids, show) && Unambiguous(kids, show) && !Shows(kids, show, [])
  {
    hide FromTuples, SlashFree, Unambiguous, Shows;
    var t := FromTuples(values, draws);
    FromTuplesRepresents(values, draws);
    RepresentedKidsDistinct(t.kids, values);
    if !SlashFree(t.kids, show) {
      var p, k := SlashyNode(t, show);
      var i := TupleOfNode(values, draws, p, k);
    }
    if !Unambiguous(t.kids, show) {
      var p, j, k := AmbiguousSiblings(t, show);
      var a := TupleOfNode(values, draws, p, j);
      var b := TupleOfNode(values, draws, p, k);
    }
    if Shows(t.kids, show, []) {
      var k := ShowsWhich(t.kids, show, []);
      assert [] + [k] == [k];
      var i := TupleOfNode(values, draws, [], k);
    }
  }

  lemma TreemapItemsOfTree<K(!new)>(values: seq<seq<K>>, draws: seq<nat>, show: K -> string)
    requires |draws| == |values|
    requires var kids := FromTuples(values, draws).kids;
             SlashFree(kids, show) && Unambiguous(kids, show) && !Shows(kids, show, [])
    ensures var v := Visit([([], FromTuples(values, draws))]); IsTreemapOf(Items(v, show), v, values, show)
  {
    hide Visit, FromTuples, Items, ItemOf, Id, SlashFree, Unambiguous, Shows, DistinctKids, IsItemOf, Depth;
    var t := FromTuples(values, draws);
    var v := Visit([([], t)]);
    var items := Items(v, show);
    FromTuplesRepresents(values, draws);
    RepresentedKidsDistinct(t.kids, values);
    TreemapVisitsTree(t);
    DistinctIdsIff(t, show);
    forall i | 0 <= i < |items| ensures IsItemOf(items[i], values, v[i].0, show) {
      assert v[i] in v && At(t, v[i].0) == Some(v[i].1);
      ItemOfNode(values, draws, show, v[i].0, v[i].1);
    }
    forall i, j | 0 <= i < j < |items| ensures items[i].id != items[j].id {
      assert v[i] in v && v[j] in v && v[i].0 != v[j].0;
      ItemFields(Id(v[i].0, show), v[i].1.count, Depth(v[i].1));
      ItemFields(Id(v[j].0, show), v[j].1.count, Depth(v[j].1));
    }
  }

  lemma ItemOfNode<K(!new)>(values: seq<seq<K>>, draws: seq<nat>, show: K -> string, p: seq<K>, n: Trie<K>)
    requires |draws| == |values| && At(FromTuples(values, draws), p) == Some(n)
    requires var kids := FromTuples(values, draws).kids; SlashFree(kids, show) && !Shows(kids, show, [])
    ensures IsItemOf(ItemOf(Id(p, show), n.count, Depth(n)), values, p, show)
  {
    hide FromTuples, SlashFree, Shows, SuffixesAt, CountMatching, Depth, IsLongest, At;
    NodeMeaning(values, draws, p);
    FromTuplesRepresents(values, draws);
    NodeRepresents(FromTuples(values, draws), values, p);
    DepthIsLongest(n, SuffixesAt(values, p));
    ItemFields(Id(p, show), n.count, Depth(n));
    if p == [] {
      SuffixesOfRoot(values);
    } else {
      var t := FromTuples(values, draws);
      IdsSplitBack(t, show, p);
      assert ItemOf(Id(p, show), t.count, Depth(t)).caption == ItemOf(Id(p, show), n.count, Depth(n)).caption;
    }
  }

  /** The fields of an item; its label depends on the id alone. */
  lemma ItemFields(id: string, value: nat, depth: nat)
    ensures var item := ItemOf(id, value, depth);
            && item.id == id && item.value == value && item.parent == ParentId(id)
            && item.colour == ColourAt(depth % 7)
            && (if id == [] then item.caption == "root" else NoSlash(item.caption))
            && forall a, b :: ItemOf(id, a, b).caption == item.caption
  {
  }

  /** The label of an item depends on its id alone. */
  // ........................................................... necessary

  /** Every proper prefix of a tuple has its item. */
  lemma ItemOfTuple<K(!new)>(values: seq<seq<K>>, draws: seq<nat>, i: nat, n: nat) returns (m: nat)
    requires |draws| == |values| && i < |values| && n < |values[i]| - 1
    ensures var v := Visit([([], FromTuples(values, draws))]); m < |v| && v[m].0 == values[i][..n + 1]
  {
    hide Visit, FromTuples, CountMatching;
    var v := Visit([([], FromTuples(values, draws))]);
    var p := values[i][..n + 1];
    CountsThrough(values, i, p);
    TreemapOfTuples(values, draws, _ => []);
    assert exists node :: (p, node) in v;
    var node :| (p, node) in v;
    m :| 0 <= m < |v| && v[m] == (p, node);
  }

  lemma IdUnfold<K>(p: seq<K>, show: K -> string)
    ensures Id(p, show) == if p == [] then [] else ChildId(Id(p[..|p| - 1], show), show(p[|p| - 1]))
  {
  }

  /** What the right item of a proper prefix says about the last key of that prefix. */
  lemma RightItemShowsKey<K(!new)>(values: seq<seq<K>>, draws: seq<nat>, show: K -> string, i: nat, n: nat)
    requires |draws| == |values| && i < |values| && n < |values[i]| - 1
    requires var v := Visit([([], FromTuples(values, draws))]); IsTreemapOf(Items(v, show), v, values, show)
    ensures NoSlash(show(values[i][n])) && (n == 0 ==> show(values[i][0]) != [])
  {
    hide Visit, FromTuples, Items, ItemOf, Id, Depth, CountMatching, IsLongest, SuffixesAt;
    var v := Visit([([], FromTuples(values, draws))]);
    var m := ItemOfTuple(values, draws, i, n);
    var p := v[m].0;
    assert IsItemOf(Items(v, show)[m], values, p, show) && p[|p| - 1] == values[i][n];
    hide IsTreemapOf;
    ItemFields(Id(p, show), v[m].1.count, Depth(v[m].1));
    IdUnfold(p, show);
    IdUnfold(p[..n], show);
  }

  /** And two prefixes that differ in their last key alone do not show alike. */
  lemma RightItemsTellApart<K(!new)>(values: seq<seq<K>>, draws: seq<nat>, show: K -> string, i: nat, j: nat, n: nat)
    requires |draws| == |values| && i < |values| && j < |values| && n < |values[i]| - 1 && n < |values[j]| - 1
    requires values[i][..n] == values[j][..n] && show(values[i][n]) == show(values[j][n])
    requires var v := Visit([([], FromTuples(values, draws))]); IsTreemapOf(Items(v, show), v, values, show)
    ensures values[i][n] == values[j][n]
  {
    hide Visit, FromTuples, Items, ItemOf, Id, ChildId, Depth, CountMatching, IsLongest, SuffixesAt;
    var v := Visit([([], FromTuples(values, draws))]);
    var items := Items(v, show);
    var a := ItemOfTuple(values, draws, i, n);
    var b := ItemOfTuple(values, draws, j, n);
    var p, q := values[i][..n + 1], values[j][..n + 1];
    assert v[a].0 == p && v[b].0 == q;
    assert IsItemOf(items[a], values, p, show) && IsItemOf(items[b], values, q, show);
    assert p[..n] == values[i][..n] && q[..n] == values[j][..n];
    SameShownSameId(p, q, show, n);
    assert items[a].id == items[b].id;
    assert !(a < b) && !(b < a);
    assert p == q;
    assert values[i][n] == p[n] && values[j][n] == q[n];
  }

  lemma SameShownSameId<K>(p: seq<K>, q: seq<K>, show: K -> string, n: nat)
    requires |p| == |q| == n + 1 && p[..n] == q[..n] && show(p[n]) == show(q[n])
    ensures Id(p, show) == Id(q, show)
  {
  }

  lemma RightItemsShowClearly<K(!new)>(values: seq<seq<K>>, draws: seq<nat>, show: K -> string)
    requires |draws| == |values|
    requires var v := Visit([([], FromTuples(values, draws))]); IsTreemapOf(Items(v, show), v, values, show)
    ensures ShownClearly(values, show)
  {
    hide Visit, FromTuples, Items, IsTreemapOf;
    forall i, n | 0 <= i < |values| && 0 <= n < |values[i]| - 1
      ensures NoSlash(show(values[i][n])) && (n == 0 ==> show(values[i][0]) != [])
    {
      RightItemShowsKey(values, draws, show, i, n);
    }
    forall i, j, n | 0 <= i < |values| && 0 <= j < |values| && 0 <= n < |values[i]| - 1 && n < |values[j]| - 1 &&
        values[i][..n] == values[j][..n] && show(values[i][n]) == show(values[j][n])
      ensures values[i][n] == values[j][n]
    {
      RightItemsTellApart(values, draws, show, i, j, n);
    }
  }
}
