/** Undirected graph connectivity over characters: the reference meaning of
    "these two characters are variants of each other".  It knows nothing about
    union-find; everything else in the dictionary pipeline is measured against it. */
module Connectivity {

  type Edge = (char, char)

  predicate Linked(edges: seq<Edge>, a: char, b: char) {
    (a, b) in edges || (b, a) in edges
  }

  ghost predicate IsPath(edges: seq<Edge>, p: seq<char>, a: char, b: char) {
    && |p| > 0 && p[0] == a && p[|p| - 1] == b
    && forall i :: 0 < i < |p| ==> Linked(edges, p[i - 1], p[i])
  }

  /** The reflexive, symmetric, transitive closure of the edges. */
  ghost predicate Connected(edges: seq<Edge>, a: char, b: char) {
    exists p: seq<char> :: IsPath(edges, p, a, b)
  }

  ghost predicate SameEquivalence(e1: seq<Edge>, e2: seq<Edge>) {
    forall a, b :: Connected(e1, a, b) <==> Connected(e2, a, b)
  }

  /** A character occurs in some pair. */
  predicate Mentioned(edges: seq<Edge>, c: char) {
    exists i :: 0 <= i < |edges| && (edges[i].0 == c || edges[i].1 == c)
  }

  lemma ConnectedRefl(edges: seq<Edge>, a: char)
    ensures Connected(edges, a, a)
  {
    assert IsPath(edges, [a], a, a);
  }

  lemma ConnectedEdge(edges: seq<Edge>, a: char, b: char)
    requires Linked(edges, a, b)
    ensures Connected(edges, a, b)
  {
    assert IsPath(edges, [a, b], a, b);
  }

  lemma ConnectedTrans(edges: seq<Edge>, a: char, b: char, c: char)
    requires Connected(edges, a, b) && Connected(edges, b, c)
    ensures Connected(edges, a, c)
  {
    var p: seq<char> :| IsPath(edges, p, a, b);
    var q: seq<char> :| IsPath(edges, q, b, c);
    assert IsPath(edges, p + q[1..], a, c);
  }

  lemma {:induction false} PathSymm(edges: seq<Edge>, p: seq<char>, a: char, b: char)
    requires IsPath(edges, p, a, b)
    ensures Connected(edges, b, a)
    decreases |p|
  {
    if |p| == 1 {
      ConnectedRefl(edges, a);
    } else {
      PathSymm(edges, p[1..], p[1], b);
      ConnectedEdge(edges, p[1], p[0]) by { assert Linked(edges, p[0], p[1]); }
      ConnectedTrans(edges, b, p[1], a);
    }
  }

  lemma ConnectedSymm(edges: seq<Edge>, a: char, b: char)
    requires Connected(edges, a, b)
    ensures Connected(edges, b, a)
  {
    var p: seq<char> :| IsPath(edges, p, a, b);
    PathSymm(edges, p, a, b);
  }

  lemma ConnectedMono(e1: seq<Edge>, e2: seq<Edge>, a: char, b: char)
    requires forall e :: e in e1 ==> Linked(e2, e.0, e.1)
    requires Connected(e1, a, b)
    ensures Connected(e2, a, b)
  {
    var p: seq<char> :| IsPath(e1, p, a, b);
    forall i | 0 < i < |p| ensures Linked(e2, p[i - 1], p[i]) {
      assert Linked(e1, p[i - 1], p[i]);
      assert (p[i - 1], p[i]) in e1 ==> Linked(e2, p[i - 1], p[i]);
      assert (p[i], p[i - 1]) in e1 ==> Linked(e2, p[i], p[i - 1]);
    }
    assert IsPath(e2, p, a, b);
  }

  /** Permuting, duplicating or swapping the sides of pairs changes no connectivity. */
  lemma SameLinksSameEquivalence(e1: seq<Edge>, e2: seq<Edge>)
    requires forall e :: e in e1 ==> Linked(e2, e.0, e.1)
    requires forall e :: e in e2 ==> Linked(e1, e.0, e.1)
    ensures SameEquivalence(e1, e2)
  {
    forall a, b ensures Connected(e1, a, b) <==> Connected(e2, a, b) {
      if Connected(e1, a, b) { ConnectedMono(e1, e2, a, b); }
      if Connected(e2, a, b) { ConnectedMono(e2, e1, a, b); }
    }
  }

  /** A labelling that agrees across every edge agrees across every connected pair. */
  lemma {:induction false} PathKeepsLabel(edges: seq<Edge>, mark: map<char, char>, p: seq<char>, a: char, b: char)
    requires forall e :: e in edges ==> e.0 in mark && e.1 in mark && mark[e.0] == mark[e.1]
    requires a in mark && IsPath(edges, p, a, b)
    ensures b in mark && mark[a] == mark[b]
    decreases |p|
  {
    if |p| > 1 {
      assert Linked(edges, p[0], p[1]);
      PathKeepsLabel(edges, mark, p[1..], p[1], b);
    }
  }

  lemma ConnectedKeepsLabel(edges: seq<Edge>, mark: map<char, char>, a: char, b: char)
    requires forall e :: e in edges ==> e.0 in mark && e.1 in mark && mark[e.0] == mark[e.1]
    requires a in mark && Connected(edges, a, b)
    ensures b in mark && mark[a] == mark[b]
  {
    var p: seq<char> :| IsPath(edges, p, a, b);
    PathKeepsLabel(edges, mark, p, a, b);
  }

  /** Only mentioned characters are connected to anything but themselves. */
  lemma ConnectedMentioned(edges: seq<Edge>, a: char, b: char)
    requires Connected(edges, a, b) && a != b
    ensures Mentioned(edges, a) && Mentioned(edges, b)
  {
    var p: seq<char> :| IsPath(edges, p, a, b);
    assert |p| > 1;
    LinkedMentioned(edges, p[0], p[1]) by { assert Linked(edges, p[1 - 1], p[1]); }
    LinkedMentioned(edges, p[|p| - 2], p[|p| - 1]) by { assert Linked(edges, p[|p| - 1 - 1], p[|p| - 1]); }
  }

  lemma LinkedMentioned(edges: seq<Edge>, a: char, b: char)
    requires Linked(edges, a, b)
    ensures Mentioned(edges, a) && Mentioned(edges, b)
  {
    var e := if (a, b) in edges then (a, b) else (b, a);
    var i :| 0 <= i < |edges| && edges[i] == e;
  }
}
