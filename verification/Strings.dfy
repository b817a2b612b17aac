/** The str methods the sources use: split on a separator, join, strip, split on whitespace. */
module Strings {

  /** The parts between the separators, one more than there are separators. */
  function Split(s: string, sep: char): (r: seq<string>)
    ensures |r| >= 1
    ensures forall i :: 0 <= i < |r| ==> sep !in r[i]
  {
    if s == [] then [[]]
    else
      var rest := Split(s[1..], sep);
      if s[0] == sep then [[]] + rest else [[s[0]] + rest[0]] + rest[1..]
  }

  /** The parts with a separator between each two. */
  function Join(parts: seq<string>, sep: char): string {
    if parts == [] then []
    else if |parts| == 1 then parts[0]
    else parts[0] + [sep] + Join(parts[1..], sep)
  }

  /** join undoes split. */
  lemma {:induction false} JoinSplit(s: string, sep: char)
    ensures Join(Split(s, sep), sep) == s
  {
    if s != [] {
      JoinSplit(s[1..], sep);
      var rest := Split(s[1..], sep);
      if s[0] != sep && |rest| > 1 {
        assert ([[s[0]] + rest[0]] + rest[1..])[1..] == rest[1..];
      } else if s[0] == sep {
        assert ([[]] + rest)[1..] == rest;
      }
    }
  }

  /** A separator-free part splits off in front. */
  lemma {:induction false} SplitFront(part: string, s: string, sep: char)
    requires sep !in part
    ensures Split(part + [sep] + s, sep) == [part] + Split(s, sep)
    ensures Split(part, sep) == [part]
  {
    if part == [] {
      assert part + [sep] + s == [sep] + s;
    } else {
      SplitFront(part[1..], s, sep);
      assert (part + [sep] + s)[1..] == part[1..] + [sep] + s;
      assert [part[0]] + part[1..] == part;
    }
  }

  /** split undoes join on separator-free parts. */
  lemma {:induction false} SplitJoin(parts: seq<string>, sep: char)
    requires parts != [] && forall i :: 0 <= i < |parts| ==> sep !in parts[i]
    ensures Split(Join(parts, sep), sep) == parts
  {
    if |parts| == 1 {
      SplitFront(parts[0], [], sep);
    } else {
      SplitJoin(parts[1..], sep);
      SplitFront(parts[0], Join(parts[1..], sep), sep);
    }
  }

  /** str.isspace for one character. */
  predicate IsSpace(c: char) {
    || '\t' <= c <= '\r' || '\U{1C}' <= c <= ' ' || c == '\U{85}' || c == '\U{A0}' || c == '\U{1680}'
    || '\U{2000}' <= c <= '\U{200A}' || c == '\U{2028}' || c == '\U{2029}' || c == '\U{202F}'
    || c == '\U{205F}' || c == '\U{3000}'
  }

  /** The characters that end a line of text. */
  predicate EndsLine(c: char) {
    || '\n' <= c <= '\r' || '\U{1C}' <= c <= '\U{1E}' || c == '\U{85}' || c == '\U{2028}' || c == '\U{2029}'
  }

  /** The lines of a text, a carriage return with its line feed ending one line and the end of
      the text ending a line only if it is not empty; pending is the line being read. */
  function SplitLines(s: string, pending: string := []): seq<string>
    decreases |s|
  {
    if s == [] then
      if pending == [] then [] else [pending]
    else if s[0] == '\r' && |s| > 1 && s[1] == '\n' then [pending] + SplitLines(s[2..])
    else if EndsLine(s[0]) then [pending] + SplitLines(s[1..])
    else SplitLines(s[1..], pending + [s[0]])
  }

  predicate OneLine(s: string) {
    forall i :: 0 <= i < |s| ==> !EndsLine(s[i])
  }

  /** Some lines, each ended by a line feed. */
  function Lines(lines: seq<string>): string {
    if lines == [] then [] else lines[0] + ['\n'] + Lines(lines[1..])
  }

  /** One line end: a carriage return with its line feed, or a single character that is not the
      first half of such a pair. */
  predicate IsLineEnd(end: string, rest: string) {
    || end == ['\r', '\n']
    || (|end| == 1 && EndsLine(end[0]) && !(end[0] == '\r' && rest != [] && rest[0] == '\n'))
  }

  /** A text is its first line, that line's end, and the lines of the rest. */
  lemma {:induction false} FirstLine(line: string, end: string, rest: string, pending: string)
    requires OneLine(line) && IsLineEnd(end, rest)
    ensures SplitLines(line + end + rest, pending) == [pending + line] + SplitLines(rest)
    decreases |line|
  {
    var text := line + end + rest;
    if line == [] {
      assert text == end + rest && pending + line == pending && text[|end|..] == rest;
      assert |end| == 1 && |text| > 1 ==> text[1] == rest[0];
    } else {
      assert text[0] == line[0] && !EndsLine(line[0]) && text[1..] == line[1..] + end + rest;
      FirstLine(line[1..], end, rest, pending + [line[0]]);
      assert pending + [line[0]] + line[1..] == pending + line;
    }
  }

  /** What follows the last line end is a line too, unless it is empty. */
  lemma {:induction false} UnendedLine(line: string, pending: string)
    requires OneLine(line)
    ensures SplitLines(line, pending) == if pending + line == [] then [] else [pending + line]
    decreases |line|
  {
    if line == [] {
      assert pending + line == pending;
    } else {
      UnendedLine(line[1..], pending + [line[0]]);
      assert pending + [line[0]] + line[1..] == pending + line;
    }
  }

  /** Splitting undoes ending every line. */
  lemma {:induction false} LinesSplit(lines: seq<string>)
    requires forall i :: 0 <= i < |lines| ==> OneLine(lines[i])
    ensures SplitLines(Lines(lines)) == lines
  {
    if lines != [] {
      FirstLine(lines[0], ['\n'], Lines(lines[1..]), []);
      LinesSplit(lines[1..]);
      assert [] + lines[0] == lines[0] && [lines[0]] + lines[1..] == lines;
    }
  }

  predicate NoSpace(s: string) {
    forall i :: 0 <= i < |s| ==> !IsSpace(s[i])
  }

  function LStrip(s: string): string {
    if s != [] && IsSpace(s[0]) then LStrip(s[1..]) else s
  }

  function RStrip(s: string): string {
    if s != [] && IsSpace(s[|s| - 1]) then RStrip(s[..|s| - 1]) else s
  }

  function Strip(s: string): string {
    RStrip(LStrip(s))
  }

  /** The maximal runs of non-space characters; pending is the run being read. */
  function Words(s: string, pending: string := []): (r: seq<string>)
    requires NoSpace(pending)
    ensures forall i :: 0 <= i < |r| ==> r[i] != [] && NoSpace(r[i])
    decreases |s|
  {
    var flushed := if pending == [] then [] else [pending];
    if s == [] then flushed
    else if IsSpace(s[0]) then flushed + Words(s[1..], [])
    else Words(s[1..], pending + [s[0]])
  }

  lemma {:induction false} WordsPending(word: string, s: string, pending: string)
    requires NoSpace(word) && NoSpace(pending)
    ensures Words(word + s, pending) == Words(s, pending + word)
    decreases |word|
  {
    if word == [] {
      assert word + s == s && pending + word == pending;
    } else {
      WordsPending(word[1..], s, pending + [word[0]]);
      assert (word + s)[1..] == word[1..] + s;
      assert pending + [word[0]] + word[1..] == pending + word;
    }
  }

  /** A space ends a word, and a run of visible characters is one: with these two, split() is
      determined on every text. */
  lemma {:induction false} WordsSplit(u: string, c: char, v: string, pending: string)
    requires IsSpace(c) && NoSpace(pending)
    ensures Words(u + [c] + v, pending) == Words(u, pending) + Words(v)
    ensures Words(pending) == if pending == [] then [] else [pending]
    decreases |u|
  {
    WordsPending(pending, [], []);
    assert pending + [] == pending && [] + pending == pending;
    var s := u + [c] + v;
    if u == [] {
      assert s[0] == c && s[1..] == v;
    } else {
      assert s[0] == u[0] && s[1..] == u[1..] + [c] + v;
      if IsSpace(u[0]) {
        WordsSplit(u[1..], c, v, []);
      } else {
        WordsSplit(u[1..], c, v, pending + [u[0]]);
      }
    }
  }

  predicate AllSpace(s: string) {
    forall i :: 0 <= i < |s| ==> IsSpace(s[i])
  }

  /** strip removes exactly the white space around a text that begins and ends visibly. */
  lemma StripIs(lead: string, s: string, trail: string)
    requires AllSpace(lead) && AllSpace(trail)
    requires s != [] ==> !IsSpace(s[0]) && !IsSpace(s[|s| - 1])
    ensures Strip(lead + s + trail) == s
  {
    LStripLead(lead, s + trail);
    assert lead + s + trail == lead + (s + trail);
    if s == [] {
      LStripLead(trail, []);
      assert s + trail == trail + [] == trail;
    } else {
      assert (s + trail)[0] == s[0];
      RStripTrail(s, trail);
    }
  }

  lemma {:induction false} LStripLead(lead: string, s: string)
    requires AllSpace(lead)
    ensures LStrip(lead + s) == LStrip(s)
  {
    if lead == [] {
      assert lead + s == s;
    } else {
      assert (lead + s)[1..] == lead[1..] + s;
      LStripLead(lead[1..], s);
    }
  }

  lemma {:induction false} RStripTrail(s: string, trail: string)
    requires AllSpace(trail) && s != [] && !IsSpace(s[|s| - 1])
    ensures RStrip(s + trail) == s
  {
    if trail == [] {
      assert s + trail == s;
    } else {
      assert (s + trail)[..|s + trail| - 1] == s + trail[..|trail| - 1];
      RStripTrail(s, trail[..|trail| - 1]);
    }
  }

  /** split() undoes joining with single spaces. */
  lemma {:induction false} WordsJoin(words: seq<string>)
    requires forall i :: 0 <= i < |words| ==> words[i] != [] && NoSpace(words[i])
    ensures Words(Join(words, ' ')) == words
  {
    if |words| == 1 {
      WordsPending(words[0], [], []);
      assert words[0] + [] == words[0] && [] + words[0] == words[0];
    } else if |words| > 1 {
      var tail := Join(words[1..], ' ');
      WordsJoin(words[1..]);
      WordsPending(words[0], [' '] + tail, []);
      assert words[0] + ([' '] + tail) == words[0] + [' '] + tail;
      assert [] + words[0] == words[0];
      assert ([' '] + tail)[1..] == tail;
    }
  }
}
