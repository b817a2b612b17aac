/** build_dict.py's _parse_opencc_tsv, from the text of the file on. */
module OpenccParser {
  import opened Connectivity
  import opened Strings
  import BuildDict

  /** One line: nothing for blanks, comments, lines without a tab and keys that are not one
      character; otherwise the key paired with every other one-character value. */
  function LinePairs(rawLine: string): seq<Edge> {
    var line := Strip(rawLine);
    if line == [] || line[0] == '#' then []
    else
      var parts := Split(line, '\t');
      if |parts| < 2 || |parts[0]| != 1 then []
      else KeyPairs(parts[0][0], Words(parts[1]))
  }

  function KeyPairs(key: char, values: seq<string>): seq<Edge> {
    if values == [] then []
    else
      var front, last := KeyPairs(key, values[..|values| - 1]), values[|values| - 1];
      if |last| == 1 && last[0] != key then front + [(key, last[0])] else front
  }

  /** The pairs of one entry: its key with each one-character value other than the key. */
  lemma {:induction false} KeyPairsAre(key: char, values: seq<string>)
    ensures forall e :: e in KeyPairs(key, values) <==> e.0 == key && e.1 != key && [e.1] in values
  {
    if values != [] {
      var front, last := values[..|values| - 1], values[|values| - 1];
      assert values == front + [last] && (|last| == 1 ==> last == [last[0]]);
      KeyPairsAre(key, front);
    }
  }

  /** The values contribute one by one, in order. */
  lemma {:induction false} KeyPairsConcat(key: char, a: seq<string>, b: seq<string>, value: string)
    ensures KeyPairs(key, a + b) == KeyPairs(key, a) + KeyPairs(key, b)
    ensures KeyPairs(key, [value]) == if |value| == 1 && value != [key] then [(key, value[0])] else []
    decreases |b|
  {
    assert [value][..0] == [] && (|value| == 1 ==> value == [value[0]]);
    if b == [] {
      assert a + b == a;
    } else {
      assert (a + b)[..|a + b| - 1] == a + b[..|b| - 1];
      KeyPairsConcat(key, a, b[..|b| - 1], value);
    }
  }

  lemma KeyPairsStep(key: char, values: seq<string>, j: nat)
    requires j < |values|
    ensures var val := values[j];
            KeyPairs(key, values[..j + 1]) ==
            if |val| == 1 && val != [key] then KeyPairs(key, values[..j]) + [(key, val[0])]
            else KeyPairs(key, values[..j])
  {
    assert values[..j + 1][..j] == values[..j];
    assert |values[j]| == 1 ==> values[j] == [values[j][0]];
  }

  lemma FilePairsStep(lines: seq<string>, i: nat)
    requires i < |lines|
    ensures FilePairs(lines[..i + 1]) == FilePairs(lines[..i]) + LinePairs(lines[i])
  {
    assert lines[..i + 1][..i] == lines[..i];
  }

  function FilePairs(lines: seq<string>): seq<Edge> {
    if lines == [] then [] else FilePairs(lines[..|lines| - 1]) + LinePairs(lines[|lines| - 1])
  }

  /** The inner loop of the parser: the values of one entry. */
  method PairsOfEntry(key: char, values: seq<string>) returns (pairs: seq<Edge>)
    ensures pairs == KeyPairs(key, values)
  {
    pairs := [];
    for j := 0 to |values|
      invariant pairs == KeyPairs(key, values[..j])
    {
      KeyPairsStep(key, values, j);
      var val := values[j];
      if |val| != 1 {
        continue;
      }
      if val == [key] {
        continue;
      }
      pairs := pairs + [(key, val[0])];
    }
    assert values[..|values|] == values;
  }

  method ParseOpenccTsv(text: string) returns (pairs: seq<Edge>)
    ensures pairs == FilePairs(SplitLines(text))
    ensures forall e :: e in pairs ==> e.0 != e.1 && e.0 != '#' && !IsSpace(e.0) && !IsSpace(e.1)
  {
    var lines := SplitLines(text);
    pairs := [];
    assert FilePairs(lines[..0]) == [];
    hide FilePairs, KeyPairs, Strip, Split, SplitLines, Words;
    for i := 0 to |lines|
      invariant pairs == FilePairs(lines[..i])
    {
      FilePairsStep(lines, i);
      var line := Strip(lines[i]);
      if line == [] || line[0] == '#' {
        continue;
      }
      var parts := Split(line, '\t');
      if |parts| < 2 {
        continue;
      }
      var key := parts[0];
      if |key| != 1 {
        continue;
      }
      var values := Words(parts[1]);
      var entry := PairsOfEntry(key[0], values);
      pairs := pairs + entry;
    }
    assert lines[..|lines|] == lines;
    FilePairsProper(lines);
  }

  /** The pairs of a file are those of its lines, in order: no line affects another. */
  lemma {:induction false} FilePairsConcat(a: seq<string>, b: seq<string>)
    ensures FilePairs(a + b) == FilePairs(a) + FilePairs(b)
    ensures forall line :: FilePairs([line]) == LinePairs(line)
    decreases |b|
  {
    hide LinePairs;
    forall line: string ensures FilePairs([line]) == LinePairs(line) {
      assert [line][..0] == [];
    }
    if b == [] {
      assert a + b == a;
    } else {
      assert (a + b)[..|a + b| - 1] == a + b[..|b| - 1];
      FilePairsConcat(a, b[..|b| - 1]);
    }
  }

  /** What any line says once the white space around it is gone: nothing when it is blank, a
      comment or without a tab; otherwise its key paired with the words of its second column,
      whatever further columns hold. */
  lemma ParseLine(lead: string, key: string, column: string, more: string, trail: string)
    requires AllSpace(lead) && AllSpace(trail) && '\t' !in key && '\t' !in column
    requires more == [] || more[0] == '\t'
    requires var line := key + ['\t'] + column + more;
             !IsSpace(line[0]) && !IsSpace(line[|line| - 1])
    ensures LinePairs(lead + (key + ['\t'] + column + more) + trail) ==
            if key[0] == '#' then [] else Intended(key, Words(column))
  {
    hide Words, Strip, KeyPairs, Split;
    var line := key + ['\t'] + column + more;
    StripIs(lead, line, trail);
    Columns(key, column, more);
    assert key != [] by { assert line[0] != '\t'; }
    assert line[0] == key[0];
  }

  lemma Columns(key: string, column: string, more: string)
    requires '\t' !in key && '\t' !in column && (more == [] || more[0] == '\t')
    ensures var parts := Split(key + ['\t'] + column + more, '\t');
            |parts| >= 2 && parts[0] == key && parts[1] == column
  {
    hide Split;
    assert key + ['\t'] + column + more == key + ['\t'] + (column + more);
    SplitFront(key, column + more, '\t');
    if more == [] {
      assert column + more == column;
      SplitFront(column, [], '\t');
    } else {
      assert column + more == column + ['\t'] + more[1..];
      SplitFront(column, more[1..], '\t');
    }
  }

  lemma ParseOtherLine(lead: string, s: string, trail: string)
    requires AllSpace(lead) && AllSpace(trail) && '\t' !in s
    requires s != [] ==> !IsSpace(s[0]) && !IsSpace(s[|s| - 1])
    ensures LinePairs(lead + s + trail) == []
  {
    StripIs(lead, s, trail);
    SplitFront(s, [], '\t');
  }

  /** Whatever the text, a parsed pair relates two different visible characters, and a
      number sign never is a key. */
  lemma {:induction false} FilePairsProper(lines: seq<string>)
    ensures forall e :: e in FilePairs(lines) ==> e.0 != e.1 && e.0 != '#' && !IsSpace(e.0) && !IsSpace(e.1)
  {
    hide LinePairs;
    if lines != [] {
      FilePairsProper(lines[..|lines| - 1]);
      LinePairsProper(lines[|lines| - 1]);
    }
  }

  lemma LinePairsProper(rawLine: string)
    ensures forall e :: e in LinePairs(rawLine) ==> e.0 != e.1 && e.0 != '#' && !IsSpace(e.0) && !IsSpace(e.1)
  {
    var line := Strip(rawLine);
    if line != [] && line[0] != '#' {
      var parts := Split(line, '\t');
      if |parts| >= 2 && |parts[0]| == 1 {
        StripVisible(rawLine);
        KeyPairsAre(parts[0][0], Words(parts[1]));
        forall e | e in LinePairs(rawLine) ensures e.0 != e.1 && e.0 != '#' && !IsSpace(e.0) && !IsSpace(e.1) {
          assert parts[0][0] == line[0];
          var i :| 0 <= i < |Words(parts[1])| && Words(parts[1])[i] == [e.1];
          assert NoSpace([e.1]);
          assert !IsSpace([e.1][0]);
        }
      }
    }
  }

  lemma {:induction false} LStripVisible(s: string)
    ensures LStrip(s) != [] ==> !IsSpace(LStrip(s)[0])
  {
    if s != [] && IsSpace(s[0]) { LStripVisible(s[1..]); }
  }

  lemma {:induction false} RStripFront(s: string)
    ensures RStrip(s) <= s
    ensures s != [] && !IsSpace(s[0]) ==> RStrip(s) != []
  {
    if s != [] && IsSpace(s[|s| - 1]) { RStripFront(s[..|s| - 1]); }
  }

  lemma StripVisible(s: string)
    ensures Strip(s) != [] ==> !IsSpace(Strip(s)[0])
  {
    LStripVisible(s);
    RStripFront(LStrip(s));
  }

  // ------------------------------------------------------------- round trip

  /** A dictionary line as OpenCC writes it: key, tab, values separated by spaces. */
  function Render(key: string, values: seq<string>): string {
    key + ['\t'] + Join(values, ' ')
  }

  /** The pairs a rendered entry is meant to contribute. */
  function Intended(key: string, values: seq<string>): seq<Edge> {
    if |key| == 1 then KeyPairs(key[0], values) else []
  }

  /** Only a key of exactly one character makes pairs, with each value of one other character. */
  lemma IntendedAre(key: string, values: seq<string>, e: Edge)
    ensures e in Intended(key, values) <==> key == [e.0] && e.1 != e.0 && [e.1] in values
  {
    if |key| == 1 { KeyPairsAre(key[0], values); }
  }

  /** The entry has a longer key, or no one-character value other than the key. */
  predicate NothingToPair(key: string, values: seq<string>) {
    |key| != 1 || forall i :: 0 <= i < |values| ==> |values[i]| != 1 || values[i] == key
  }

  lemma NothingIntended(key: string, values: seq<string>)
    ensures Intended(key, values) == [] <==> NothingToPair(key, values)
  {
    if |key| == 1 { KeyPairsAre(key[0], values); }
    if Intended(key, values) != [] {
      var e := Intended(key, values)[0];
      assert e in KeyPairs(key[0], values);
    }
    if !NothingToPair(key, values) {
      var i :| 0 <= i < |values| && |values[i]| == 1 && values[i] != key;
      assert values[i] == [values[i][0]];
      assert (key[0], values[i][0]) in KeyPairs(key[0], values);
    }
  }

  /** Parsing undoes rendering, exactly when the key does not read as a comment
      or the entry contributes nothing anyway. */
  lemma ParseRender(key: string, values: seq<string>)
    requires key != [] && NoSpace(key)
    requires forall i :: 0 <= i < |values| ==> values[i] != [] && NoSpace(values[i])
    ensures LinePairs(Render(key, values)) == Intended(key, values)
            <==> key[0] != '#' || NothingToPair(key, values)
  {
    var tail := Join(values, ' ');
    var line := Render(key, values);
    assert line[0] == key[0] && LStrip(line) == line;
    NothingIntended(key, values);
    if values == [] {
      assert line == key + ['\t'];
      assert line[..|line| - 1] == key;
      assert Strip(line) == RStrip(key) == key;
      SplitFront(key, [], '\t') by { KeyHasNoTab(key); }
    } else {
      JoinEndsVisible(values);
      assert line[|line| - 1] == tail[|tail| - 1];
      assert Strip(line) == line;
      KeyHasNoTab(key);
      SplitFront(key, tail, '\t');
      JoinHasNoTab(values);
      SplitFront(tail, [], '\t');
      WordsJoin(values);
    }
  }

  lemma KeyHasNoTab(key: string)
    requires NoSpace(key)
    ensures '\t' !in key
  {
  }

  lemma {:induction false} JoinHasNoTab(values: seq<string>)
    requires forall i :: 0 <= i < |values| ==> NoSpace(values[i])
    ensures '\t' !in Join(values, ' ')
  {
    if values != [] {
      KeyHasNoTab(values[0]);
      JoinHasNoTab(values[1..]);
    }
  }

  lemma {:induction false} JoinEndsVisible(values: seq<string>)
    requires values != [] && forall i :: 0 <= i < |values| ==> values[i] != [] && NoSpace(values[i])
    ensures var s := Join(values, ' '); s != [] && !IsSpace(s[|s| - 1])
  {
    if |values| > 1 { JoinEndsVisible(values[1..]); }
  }

  // -------------------------------------------------------- a whole dictionary

  datatype DictionaryEntry = DictionaryEntry(key: string, values: seq<string>)

  predicate Visible(e: DictionaryEntry) {
    && e.key != [] && NoSpace(e.key)
    && forall i :: 0 <= i < |e.values| ==> e.values[i] != [] && NoSpace(e.values[i])
  }

  /** The entry survives the round trip: no comment, or nothing to lose. */
  predicate Survives(e: DictionaryEntry)
    requires Visible(e)
  {
    e.key[0] != '#' || NothingToPair(e.key, e.values)
  }

  function RenderAll(entries: seq<DictionaryEntry>): (r: seq<string>)
    ensures |r| == |entries| && forall i :: 0 <= i < |r| ==> r[i] == Render(entries[i].key, entries[i].values)
  {
    seq(|entries|, i requires 0 <= i < |entries| => Render(entries[i].key, entries[i].values))
  }

  function AllIntended(entries: seq<DictionaryEntry>): seq<Edge> {
    if entries == [] then []
    else
      var last := entries[|entries| - 1];
      AllIntended(entries[..|entries| - 1]) + Intended(last.key, last.values)
  }

  /** Writing a dictionary file and parsing it gives exactly the intended pairs, if and only if
      every entry survives. */
  lemma DictionaryRoundTrip(entries: seq<DictionaryEntry>)
    requires forall i :: 0 <= i < |entries| ==> Visible(entries[i])
    ensures FilePairs(SplitLines(Lines(RenderAll(entries)))) == AllIntended(entries)
            <==> forall i :: 0 <= i < |entries| ==> Survives(entries[i])
  {
    hide SplitLines, FilePairs, AllIntended, Survives, Render;
    forall i | 0 <= i < |entries| ensures OneLine(RenderAll(entries)[i]) { RenderIsOneLine(entries[i]); }
    LinesSplit(RenderAll(entries));
    ParseAll(entries);
  }

  /** What a rendered entry parses to: all it intends, or nothing at all. */
  lemma ParseEntry(e: DictionaryEntry)
    requires Visible(e)
    ensures LinePairs(Render(e.key, e.values)) == if Survives(e) then Intended(e.key, e.values) else []
    ensures !Survives(e) ==> Intended(e.key, e.values) != []
  {
    ParseRender(e.key, e.values);
    NothingIntended(e.key, e.values);
    if !Survives(e) {
      var line := Render(e.key, e.values);
      assert line[0] == '#' && LStrip(line) == line;
      RStripFront(line);
    }
  }

  lemma {:induction false} ParseAll(entries: seq<DictionaryEntry>)
    requires forall i :: 0 <= i < |entries| ==> Visible(entries[i])
    ensures |FilePairs(RenderAll(entries))| <= |AllIntended(entries)|
    ensures |FilePairs(RenderAll(entries))| == |AllIntended(entries)| <==>
            forall i :: 0 <= i < |entries| ==> Survives(entries[i])
    ensures (forall i :: 0 <= i < |entries| ==> Survives(entries[i])) ==>
            FilePairs(RenderAll(entries)) == AllIntended(entries)
  {
    hide Render, LinePairs, Intended, Survives;
    if entries != [] {
      var n := |entries| - 1;
      ParseAll(entries[..n]);
      assert RenderAll(entries)[..n] == RenderAll(entries[..n]);
      ParseEntry(entries[n]);
      assert entries == entries[..n] + [entries[n]];
    }
  }

  lemma RenderIsOneLine(e: DictionaryEntry)
    requires Visible(e)
    ensures OneLine(Render(e.key, e.values))
  {
    JoinIsOneLine(e.values);
  }

  lemma {:induction false} JoinIsOneLine(values: seq<string>)
    requires forall i :: 0 <= i < |values| ==> NoSpace(values[i])
    ensures OneLine(Join(values, ' '))
  {
    if |values| == 1 {
      assert NoSpace(values[0]);
    } else if values != [] {
      assert NoSpace(values[0]);
      JoinIsOneLine(values[1..]);
    }
  }

  // --------------------------------------------------- from text to clusters

  /** _build from the text of its sources: canonical, and covering exactly the characters
      that occur in some parsed pair. */
  method BuildFromText(files: seq<string>) returns (clusters: seq<BuildDict.Cluster>)
    ensures BuildDict.IsCanonical(clusters, AllFilePairs(files))
    ensures forall c :: BuildDict.Covered(clusters, c) <==> Mentioned(AllFilePairs(files), c)
  {
    var parsed: seq<seq<Edge>> := [];
    for i := 0 to |files|
      invariant BuildDict.AllPairs(parsed) == AllFilePairs(files[..i])
      invariant forall e :: e in AllFilePairs(files[..i]) ==> e.0 != e.1
    {
      var pairs := ParseOpenccTsv(files[i]);
      assert files[..i + 1][..i] == files[..i] && (parsed + [pairs])[..|parsed|] == parsed;
      parsed := parsed + [pairs];
    }
    assert files[..|files|] == files;
    hide BuildDict.IsCanonical;
    clusters := BuildDict.Build(parsed);
    var edges := AllFilePairs(files);
    forall c ensures BuildDict.Covered(clusters, c) <==> Mentioned(edges, c) {
      BuildDict.CoveredExactlyMentioned(clusters, edges, c);
    }
  }

  function AllFilePairs(files: seq<string>): seq<Edge> {
    if files == [] then [] else AllFilePairs(files[..|files| - 1]) + FilePairs(SplitLines(files[|files| - 1]))
  }

  /** Every file counts, and in it every line. */
  lemma {:induction false} AllFilePairsAre(files: seq<string>, e: Edge)
    ensures e in AllFilePairs(files) <==> exists i :: 0 <= i < |files| && e in FilePairs(SplitLines(files[i]))
  {
    hide FilePairs, SplitLines;
    if files != [] {
      var n := |files| - 1;
      AllFilePairsAre(files[..n], e);
      assert files == files[..n] + [files[n]];
      if i :| 0 <= i < n && e in FilePairs(SplitLines(files[..n][i])) { assert files[i] == files[..n][i]; }
    }
  }

  lemma {:induction false} FilePairsAre(lines: seq<string>, e: Edge)
    ensures e in FilePairs(lines) <==> exists j :: 0 <= j < |lines| && e in LinePairs(lines[j])
  {
    hide LinePairs;
    if lines != [] {
      var n := |lines| - 1;
      FilePairsAre(lines[..n], e);
      forall j | 0 <= j < n ensures lines[..n][j] == lines[j] {}
    }
  }
}
