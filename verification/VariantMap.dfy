/** variant_map.py: the translate table loaded from the cluster list, and its three queries. */
module VariantMap {
  import opened Options
  import opened Strings
  import opened Connectivity
  import opened BuildDict

  function Chars(k: Cluster): set<char> {
    {k.representative} + (set m | m in k.members)
  }

  /** The dictionary after assigning one value to each of some keys. */
  function AssignAll<V>(m: map<char, V>, keys: seq<char>, v: V): map<char, V> {
    if keys == [] then m else AssignAll(m, keys[..|keys| - 1], v)[keys[|keys| - 1] := v]
  }

  lemma {:induction false} AssignAllLookup<V>(m: map<char, V>, keys: seq<char>, v: V, c: char)
    ensures c in AssignAll(m, keys, v) <==> c in keys || c in m
    ensures c in AssignAll(m, keys, v) ==> AssignAll(m, keys, v)[c] == if c in keys then v else m[c]
  {
    if keys != [] { AssignAllLookup(m, keys[..|keys| - 1], v, c); }
  }

  /** The member-to-representative table after reading some lines. */
  function LoadedMap(lines: seq<Cluster>): map<char, char> {
    if lines == [] then map[]
    else
      var last := lines[|lines| - 1];
      AssignAll(LoadedMap(lines[..|lines| - 1]), last.members, last.representative)
  }

  /** The cluster table after reading some lines. */
  function LoadedClusters(lines: seq<Cluster>): map<char, set<char>> {
    if lines == [] then map[]
    else
      var last := lines[|lines| - 1];
      AssignAll(LoadedClusters(lines[..|lines| - 1])[last.representative := Chars(last)], last.members, Chars(last))
  }

  /** The objects on the lines that are not blank. */
  function Decoded(lines: seq<string>, decode: string -> Cluster): seq<Cluster> {
    if lines == [] then []
    else
      var front, line := Decoded(lines[..|lines| - 1], decode), Strip(lines[|lines| - 1]);
      if line == [] then front else front + [decode(line)]
  }

  /** Each line speaks for itself, and only a blank one says nothing. */
  lemma {:induction false} DecodedConcat(a: seq<string>, b: seq<string>, decode: string -> Cluster)
    ensures Decoded(a + b, decode) == Decoded(a, decode) + Decoded(b, decode)
    ensures forall line :: Decoded([line], decode) == if Strip(line) == [] then [] else [decode(Strip(line))]
    decreases |b|
  {
    hide Strip;
    forall line: string ensures Decoded([line], decode) == if Strip(line) == [] then [] else [decode(Strip(line))] {
      assert [line][..0] == [];
    }
    if b == [] {
      assert a + b == a;
    } else {
      assert (a + b)[..|a + b| - 1] == a + b[..|b| - 1];
      DecodedConcat(a, b[..|b| - 1], decode);
    }
  }

  class VariantMap {
    var table: map<int, char>           // keyed by code point, for str.translate
    var mapping: map<char, char>
    var clusters: map<char, set<char>>

    /** table and mapping say the same thing, one by code point and one by character. */
    ghost predicate TablesAgree() reads this {
      && (forall c :: Ord(c) in table <==> c in mapping)
      && (forall c :: c in mapping ==> table[Ord(c)] == mapping[c])
    }

    ghost predicate Loaded(lines: seq<Cluster>) reads this {
      mapping == LoadedMap(lines) && clusters == LoadedClusters(lines) && TablesAgree()
    }

    /** No data file disables normalisation; otherwise its lines, blank ones apart, fill the three
        tables.  decode is the JSON library's reading of one line. */
    constructor (data: Option<seq<string>>, decode: string -> Cluster)
      ensures Loaded(if data.Some? then Decoded(data.value, decode) else [])
    {
      table, mapping, clusters := map[], map[], map[];
      new;
      if data.Some? {
        ReadLines(data.value, decode);
      }
    }

    method ReadLines(lines: seq<string>, decode: string -> Cluster)
      requires Loaded([])
      modifies this
      ensures Loaded(Decoded(lines, decode))
    {
      for i := 0 to |lines|
        invariant Loaded(Decoded(lines[..i], decode))
      {
        assert lines[..i + 1][..i] == lines[..i];
        ghost var before := Decoded(lines[..i], decode);
        var line := Strip(lines[i]);
        if line == [] {
          continue;
        }
        ReadLine(decode(line));
        assert (before + [decode(line)])[..|before|] == before;
      }
      assert lines[..|lines|] == lines;
    }

    /** One line: its representative and all its members now share one cluster. */
    method ReadLine(line: Cluster)
      requires TablesAgree()
      modifies this
      ensures mapping == AssignAll(old(mapping), line.members, line.representative)
      ensures clusters == AssignAll(old(clusters)[line.representative := Chars(line)], line.members, Chars(line))
      ensures TablesAgree()
    {
      var rep, members := line.representative, line.members;
      var allChars := Chars(line);
      clusters := clusters[rep := allChars];
      for j := 0 to |members|
        invariant mapping == AssignAll(old(mapping), members[..j], rep)
        invariant clusters == AssignAll(old(clusters)[rep := allChars], members[..j], allChars)
        invariant TablesAgree()
      {
        var m := members[j];
        assert members[..j + 1][..j] == members[..j];
        table := table[Ord(m) := rep];
        mapping := mapping[m := rep];
        clusters := clusters[m := allChars];
      }
      assert members[..|members|] == members;
    }

    function Representative(c: char): char reads this {
      if c in mapping then mapping[c] else c
    }

    function ClusterOf(c: char): set<char> reads this {
      if c in clusters then clusters[c] else {c}
    }

    /** Every character of the text looked up in the table, in one pass. */
    function Normalize(text: string): (r: string)
      reads this
      ensures |r| == |text|
    {
      if text == [] then []
      else [if Ord(text[0]) in table then table[Ord(text[0])] else text[0]] + Normalize(text[1..])
    }

    /** The tables answer exactly the connectivity questions of the pairs. */
    ghost predicate Answers(edges: seq<Edge>) reads this {
      && (forall c :: LeastConnected(edges, c, Representative(c)))
      && (forall c, d :: d in ClusterOf(c) <==> Connected(edges, c, d))
      && TablesAgree()
    }
  }

  ghost predicate LeastConnected(edges: seq<Edge>, c: char, r: char) {
    Connected(edges, c, r) && forall d :: Connected(edges, c, d) ==> r <= d
  }

  // ------------------------------------------------ loading a canonical list

  /** Position of the last line whose members include c, or -1. */
  function LastLine(lines: seq<Cluster>, c: char): (i: int)
    ensures -1 <= i < |lines|
    ensures i >= 0 ==> c in lines[i].members
    ensures forall j :: i < j < |lines| ==> c !in lines[j].members
  {
    if lines == [] then -1
    else if c in lines[|lines| - 1].members then |lines| - 1
    else LastLine(lines[..|lines| - 1], c)
  }

  lemma {:induction false} LoadedMapIsLastLine(lines: seq<Cluster>, c: char)
    ensures c in LoadedMap(lines) <==> LastLine(lines, c) >= 0
    ensures c in LoadedMap(lines) ==> LoadedMap(lines)[c] == lines[LastLine(lines, c)].representative
  {
    if lines != [] {
      var front, last := lines[..|lines| - 1], lines[|lines| - 1];
      LoadedMapIsLastLine(front, c);
      AssignAllLookup(LoadedMap(front), last.members, last.representative, c);
    }
  }

  /** Position of the last line that mentions c at all, or -1. */
  function LastMention(lines: seq<Cluster>, c: char): (i: int)
    ensures -1 <= i < |lines|
    ensures i >= 0 ==> InCluster(lines[i], c)
    ensures forall j :: i < j < |lines| ==> !InCluster(lines[j], c)
  {
    if lines == [] then -1
    else if InCluster(lines[|lines| - 1], c) then |lines| - 1
    else LastMention(lines[..|lines| - 1], c)
  }

  lemma {:induction false} LoadedClustersIsLastMention(lines: seq<Cluster>, c: char)
    ensures c in LoadedClusters(lines) <==> LastMention(lines, c) >= 0
    ensures c in LoadedClusters(lines) ==> LoadedClusters(lines)[c] == Chars(lines[LastMention(lines, c)])
  {
    if lines != [] {
      var front, last := lines[..|lines| - 1], lines[|lines| - 1];
      LoadedClustersIsLastMention(front, c);
      AssignAllLookup(LoadedClusters(front)[last.representative := Chars(last)], last.members, Chars(last), c);
    }
  }

  /** A loaded canonical list answers connectivity exactly. */
  lemma LoadedAnswers(vm: VariantMap, cs: seq<Cluster>, edges: seq<Edge>)
    requires vm.Loaded(cs) && IsCanonical(cs, edges)
    ensures vm.Answers(edges)
  {
    hide Connected, IsCanonical;
    forall c ensures LeastConnected(edges, c, vm.Representative(c)) {
      RepresentativeIsLeast(vm, cs, edges, c);
    }
    forall c, d ensures d in vm.ClusterOf(c) <==> Connected(edges, c, d) {
      ClusterIsComponent(vm, cs, edges, c, d);
    }
  }

  lemma ConnectedIsCovered(cs: seq<Cluster>, edges: seq<Edge>, c: char, d: char)
    requires IsCanonical(cs, edges) && Connected(edges, c, d) && c != d
    ensures Covered(cs, c)
  {
  }

  lemma RepresentativeIsLeast(vm: VariantMap, cs: seq<Cluster>, edges: seq<Edge>, c: char)
    requires vm.Loaded(cs) && IsCanonical(cs, edges)
    ensures LeastConnected(edges, c, vm.Representative(c))
  {
    hide Connected, LoadedMap, LoadedClusters, LastLine;
    LoadedMapIsLastLine(cs, c);
    ConnectedRefl(edges, c);
    var i := LastLine(cs, c);
    if i >= 0 {
      CanonicalClasses(cs, edges, i, c);
      assert Describes(cs[i], edges);
      ConnectedSymm(edges, cs[i].representative, c);
    } else {
      forall d | Connected(edges, c, d) ensures c <= d {
        if d != c {
          ConnectedIsCovered(cs, edges, c, d);
          var j :| 0 <= j < |cs| && InCluster(cs[j], c);
          CanonicalClasses(cs, edges, j, c);
        }
      }
    }
  }

  lemma ClusterIsComponent(vm: VariantMap, cs: seq<Cluster>, edges: seq<Edge>, c: char, d: char)
    requires vm.Loaded(cs) && IsCanonical(cs, edges)
    ensures d in vm.ClusterOf(c) <==> Connected(edges, c, d)
  {
    hide Connected, LoadedMap, LoadedClusters, LastMention;
    LoadedClustersIsLastMention(cs, c);
    ConnectedRefl(edges, c);
    var i := LastMention(cs, c);
    if i >= 0 {
      assert Describes(cs[i], edges) && (d in Chars(cs[i]) <==> InCluster(cs[i], d));
      if d in Chars(cs[i]) {
        ConnectedSymm(edges, cs[i].representative, c);
        ConnectedTrans(edges, c, cs[i].representative, d);
      }
      if Connected(edges, c, d) {
        ConnectedTrans(edges, cs[i].representative, c, d);
      }
    } else if Connected(edges, c, d) && d != c {
      ConnectedIsCovered(cs, edges, c, d);
    }
  }

  // ---------------------------------------------------------- normalisation

  /** Texts of equal length that are connected position by position. */
  ghost predicate PointwiseConnected(edges: seq<Edge>, s: string, t: string) {
    |s| == |t| && forall i :: 0 <= i < |s| ==> Connected(edges, s[i], t[i])
  }

  lemma {:induction false} NormalizeAt(vm: VariantMap, edges: seq<Edge>, s: string, i: nat)
    requires vm.Answers(edges) && i < |s|
    ensures vm.Normalize(s)[i] == vm.Representative(s[i])
  {
    if i > 0 { NormalizeAt(vm, edges, s[1..], i - 1); }
  }

  /** Representatives are equal exactly for connected characters. */
  lemma RepresentativesAgree(vm: VariantMap, edges: seq<Edge>, c: char, d: char)
    requires vm.Answers(edges)
    ensures vm.Representative(c) == vm.Representative(d) <==> Connected(edges, c, d)
  {
    hide Connected;
    var rc, rd := vm.Representative(c), vm.Representative(d);
    assert LeastConnected(edges, c, rc) && LeastConnected(edges, d, rd);
    if rc == rd {
      ConnectedSymm(edges, d, rd);
      ConnectedTrans(edges, c, rc, d);
    }
    if Connected(edges, c, d) {
      ConnectedSymm(edges, c, d);
      ConnectedTrans(edges, d, c, rc);
      ConnectedTrans(edges, c, d, rd);
    }
  }

  /** normalize keeps the length, is idempotent, and identifies exactly the texts that are
      connected position by position. */
  lemma NormalizeFaithful(vm: VariantMap, edges: seq<Edge>, s: string, t: string)
    requires vm.Answers(edges)
    ensures PointwiseConnected(edges, s, vm.Normalize(s))
    ensures vm.Normalize(vm.Normalize(s)) == vm.Normalize(s)
    ensures vm.Normalize(s) == vm.Normalize(t) <==> PointwiseConnected(edges, s, t)
  {
    hide Connected;
    var n := vm.Normalize(s);
    forall i | 0 <= i < |s|
      ensures Connected(edges, s[i], n[i]) && vm.Normalize(n)[i] == n[i]
    {
      NormalizeAt(vm, edges, s, i);
      NormalizeAt(vm, edges, n, i);
      assert LeastConnected(edges, s[i], n[i]);
      RepresentativesAgree(vm, edges, s[i], n[i]);
    }
    if |s| == |t| {
      forall i | 0 <= i < |s| ensures n[i] == vm.Normalize(t)[i] <==> Connected(edges, s[i], t[i]) {
        NormalizeAt(vm, edges, s, i);
        NormalizeAt(vm, edges, t, i);
        RepresentativesAgree(vm, edges, s[i], t[i]);
      }
    }
  }

  /** What is assumed of the JSON library: one object's text is neither empty nor framed by white
      space, and reads back as that object. */
  ghost predicate IsCodec(encode: Cluster -> string, decode: string -> Cluster) {
    forall k :: var s := encode(k); s != [] && !IsSpace(s[0]) && !IsSpace(s[|s| - 1]) && decode(s) == k
  }

  /** The last loop of _build: one line per cluster. */
  method WriteLines(clusters: seq<Cluster>, encode: Cluster -> string) returns (lines: seq<string>)
    ensures lines == Written(clusters, encode)
    ensures |lines| == |clusters| && forall i :: 0 <= i < |lines| ==> lines[i] == encode(clusters[i]) + ['\n']
  {
    lines := [];
    for i := 0 to |clusters|
      invariant lines == Written(clusters[..i], encode)
    {
      lines := lines + [encode(clusters[i]) + ['\n']];
    }
    assert clusters[..|clusters|] == clusters;
  }

  function Written(clusters: seq<Cluster>, encode: Cluster -> string): seq<string> {
    seq(|clusters|, i requires 0 <= i < |clusters| => encode(clusters[i]) + ['\n'])
  }

  /** Loading reads back what was written. */
  lemma {:induction false} DecodedWritten(clusters: seq<Cluster>, encode: Cluster -> string, decode: string -> Cluster)
    requires IsCodec(encode, decode)
    ensures Decoded(Written(clusters, encode), decode) == clusters
  {
    if clusters != [] {
      var n := |clusters| - 1;
      DecodedWritten(clusters[..n], encode, decode);
      var lines := Written(clusters, encode);
      assert lines[..n] == Written(clusters[..n], encode) && lines[n] == encode(clusters[n]) + ['\n'];
      StripsToItself(encode(clusters[n]));
      hide Written, Strip;
      assert clusters == clusters[..n] + [clusters[n]];
    }
  }

  lemma StripsToItself(s: string)
    requires s != [] && !IsSpace(s[0]) && !IsSpace(s[|s| - 1])
    ensures Strip(s + ['\n']) == s
  {
    var line := s + ['\n'];
    assert LStrip(line) == line && line[..|line| - 1] == s && RStrip(s) == s;
  }

  /** The whole pipeline: build the list from the pairs, write and load it, and the result answers
      connectivity by the pairs. */
  method BuildAndLoad(files: seq<seq<Edge>>, encode: Cluster -> string, decode: string -> Cluster)
      returns (vm: VariantMap)
    requires IsCodec(encode, decode)
    ensures fresh(vm) && vm.Answers(AllPairs(files))
  {
    hide IsCanonical, Connected, IsCodec;
    var clusters := Build(files);
    var lines := WriteLines(clusters, encode);
    vm := new VariantMap(Some(lines), decode);
    DecodedWritten(clusters, encode, decode);
    LoadedAnswers(vm, clusters, AllPairs(files));
  }
}
