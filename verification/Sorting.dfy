/** Sorting and minimum by an integer key. */
module Sorting {

  ghost predicate StrictlySortedBy<T>(s: seq<T>, key: T -> int) {
    forall i, j :: 0 <= i < j < |s| ==> key(s[i]) < key(s[j])
  }

  ghost predicate DistinctKeys<T>(s: seq<T>, key: T -> int) {
    forall i, j :: 0 <= i < j < |s| ==> key(s[i]) != key(s[j])
  }

  function Insert<T>(x: T, s: seq<T>, key: T -> int): (r: seq<T>)
    ensures multiset(r) == multiset(s) + multiset{x}
  {
    if s == [] || key(x) <= key(s[0]) then [x] + s
    else
      assert s == [s[0]] + s[1..];
      [s[0]] + Insert(x, s[1..], key)
  }

  function SortBy<T>(s: seq<T>, key: T -> int): (r: seq<T>)
    ensures multiset(r) == multiset(s) && |r| == |s|
  {
    if s == [] then []
    else
      assert s == [s[0]] + s[1..];
      Insert(s[0], SortBy(s[1..], key), key)
  }

  lemma SortByMembers<T>(s: seq<T>, key: T -> int, x: T)
    ensures x in SortBy(s, key) <==> x in s
  {
    assert x in multiset(SortBy(s, key)) <==> x in multiset(s);
  }

  lemma {:induction false} SortByStrict<T>(s: seq<T>, key: T -> int)
    requires DistinctKeys(s, key)
    ensures StrictlySortedBy(SortBy(s, key), key)
  {
    if s != [] {
      SortByStrict(s[1..], key);
      forall y | y in SortBy(s[1..], key) ensures key(y) != key(s[0]) {
        SortByMembers(s[1..], key, y);
      }
      InsertStrict(s[0], SortBy(s[1..], key), key);
    }
  }

  lemma {:induction false} InsertStrict<T>(x: T, s: seq<T>, key: T -> int)
    requires StrictlySortedBy(s, key) && forall y :: y in s ==> key(y) != key(x)
    ensures StrictlySortedBy(Insert(x, s, key), key)
  {
    if s != [] && key(x) > key(s[0]) {
      InsertStrict(x, s[1..], key);
      StrictCons(s[0], Insert(x, s[1..], key), key) by {
        forall y | y in Insert(x, s[1..], key) ensures key(s[0]) < key(y) { InsertMembers(x, s[1..], key, y); }
      }
    } else {
      StrictCons(x, s, key);
    }
  }

  lemma InsertMembers<T>(x: T, s: seq<T>, key: T -> int, y: T)
    ensures y in Insert(x, s, key) <==> y == x || y in s
  {
    assert y in Insert(x, s, key) <==> y in multiset(Insert(x, s, key));
  }

  lemma StrictCons<T>(x: T, s: seq<T>, key: T -> int)
    requires StrictlySortedBy(s, key) && forall y :: y in s ==> key(x) < key(y)
    ensures StrictlySortedBy([x] + s, key)
  {
    var all := [x] + s;
    forall i, j | 0 <= i < j < |all| ensures key(all[i]) < key(all[j]) {
      assert all[j] == s[j - 1] && s[j - 1] in s;
    }
  }

  /** A strictly ascending sequence is determined by its set of elements. */
  lemma {:induction false} StrictlySortedUnique<T>(s: seq<T>, t: seq<T>, key: T -> int)
    requires StrictlySortedBy(s, key) && StrictlySortedBy(t, key)
    requires forall x :: x in s <==> x in t
    ensures s == t
  {
    assert t != [] ==> t[0] in t;
    if s != [] {
      assert s[0] in s && s[0] in t;
      assert t[0] in t && t[0] in s;
      assert s[0] == t[0];
      forall x ensures x in s[1..] <==> x in t[1..] {
        assert x in s[1..] <==> x in s && key(x) != key(s[0]);
        assert x in t[1..] <==> x in t && key(x) != key(t[0]);
      }
      StrictlySortedUnique(s[1..], t[1..], key);
      assert s == [s[0]] + s[1..] && t == [t[0]] + t[1..];
    }
  }

  function MinBy<T>(s: seq<T>, key: T -> int): (m: T)
    requires s != []
    ensures m in s && forall x :: x in s ==> key(m) <= key(x)
  {
    if |s| == 1 then s[0]
    else
      var m := MinBy(s[1..], key);
      assert s == [s[0]] + s[1..];
      if key(s[0]) <= key(m) then s[0] else m
  }
}
