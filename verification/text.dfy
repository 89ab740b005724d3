/** The pieces of Go's `strings` and `bufio` packages that the profile editor
    relies on, over strings seen as sequences of Unicode scalar values (Go
    decodes UTF-8 into runes for every function used here). */
module Text {
  import opened Wrappers

  /** Go's `unicode.IsSpace`: the Latin-1 spaces and the Unicode
      White_Space characters above U+00FF. */
  predicate IsSpace(c: char) {
    || c == '\t' || c == '\n' || c == '\U{B}' || c == '\U{C}' || c == '\r' || c == ' '
    || c == '\U{85}' || c == '\U{A0}' || c == '\U{1680}'
    || ('\U{2000}' <= c <= '\U{200A}')
    || c == '\U{2028}' || c == '\U{2029}' || c == '\U{202F}' || c == '\U{205F}' || c == '\U{3000}'
  }

  /** Neither end of `s` is a white-space character. */
  predicate NoEdgeSpace(s: string) {
    s == [] || (!IsSpace(s[0]) && !IsSpace(s[|s| - 1]))
  }

  /** Neither end of `s` is a double quote. */
  predicate NoEdgeQuote(s: string) {
    s == [] || (s[0] != '"' && s[|s| - 1] != '"')
  }

  /** `strings.TrimLeftFunc(s, unicode.IsSpace)`. */
  function TrimLeftSpace(s: string): (r: string)
    ensures |r| <= |s|
    ensures r == [] || !IsSpace(r[0])
    ensures r != [] ==> r[|r| - 1] == s[|s| - 1]
  {
    if s != [] && IsSpace(s[0]) then TrimLeftSpace(s[1..]) else s
  }

  /** `strings.TrimRightFunc(s, unicode.IsSpace)`. */
  function TrimRightSpace(s: string): (r: string)
    ensures |r| <= |s|
    ensures r == [] || !IsSpace(r[|r| - 1])
    ensures r != [] ==> r[0] == s[0]
  {
    if s != [] && IsSpace(s[|s| - 1]) then TrimRightSpace(s[..|s| - 1]) else s
  }

  /** `strings.TrimSpace`. */
  function TrimSpace(s: string): (r: string)
    ensures NoEdgeSpace(r)
  {
    TrimRightSpace(TrimLeftSpace(s))
  }

  function TrimLeftQuotes(s: string): (r: string)
    ensures |r| <= |s|
    ensures r == [] || r[0] != '"'
    ensures r != [] ==> r[|r| - 1] == s[|s| - 1]
  {
    if s != [] && s[0] == '"' then TrimLeftQuotes(s[1..]) else s
  }

  function TrimRightQuotes(s: string): (r: string)
    ensures |r| <= |s|
    ensures r == [] || r[|r| - 1] != '"'
    ensures r != [] ==> r[0] == s[0]
  {
    if s != [] && s[|s| - 1] == '"' then TrimRightQuotes(s[..|s| - 1]) else s
  }

  /** `strings.Trim(s, "\"")`: strips every leading and trailing double quote. */
  function TrimQuotes(s: string): (r: string)
    ensures NoEdgeQuote(r)
  {
    TrimRightQuotes(TrimLeftQuotes(s))
  }

  /** What left-trimming removes is white space and nothing else: the result
      is what follows a prefix made only of blanks. */
  lemma {:induction false} TrimLeftSpaceDrops(s: string)
    ensures var r := TrimLeftSpace(s);
      s[|s| - |r|..] == r && forall i :: 0 <= i < |s| - |r| ==> IsSpace(s[i])
    decreases |s|
  {
    if s != [] && IsSpace(s[0]) {
      TrimLeftSpaceDrops(s[1..]);
      assert s[1..][|s| - 1 - |TrimLeftSpace(s)|..] == s[|s| - |TrimLeftSpace(s)|..];
    }
  }

  /** What right-trimming removes is white space and nothing else. */
  lemma {:induction false} TrimRightSpaceDrops(s: string)
    ensures var r := TrimRightSpace(s);
      s[..|r|] == r && forall i :: |r| <= i < |s| ==> IsSpace(s[i])
    decreases |s|
  {
    if s != [] && IsSpace(s[|s| - 1]) {
      TrimRightSpaceDrops(s[..|s| - 1]);
      assert s[..|s| - 1][..|TrimRightSpace(s)|] == s[..|TrimRightSpace(s)|];
    }
  }

  /** Trimming a string whose ends are already clean leaves it unchanged. */
  lemma TrimSpaceClean(s: string)
    requires NoEdgeSpace(s)
    ensures TrimSpace(s) == s
  {
  }

  /** One leading space in front of a clean key is trimmed away, and nothing else. */
  lemma TrimSpaceAfterBlank(k: string)
    requires NoEdgeSpace(k)
    ensures TrimSpace(" " + k) == k
  {
    assert (" " + k)[1..] == k;
    assert TrimLeftSpace(" " + k) == TrimLeftSpace(k);
  }

  /** A quoted value without quotes at its ends comes back unchanged. */
  lemma TrimQuotesQuoted(v: string)
    requires NoEdgeQuote(v)
    ensures TrimQuotes("\"" + v + "\"") == v
  {
    var q := "\"" + v + "\"";
    assert q[1..] == v + "\"";
    assert TrimLeftQuotes(q) == TrimLeftQuotes(v + "\"");
    if v != [] {
      assert (v + "\"")[0] == v[0];
      assert TrimLeftQuotes(v + "\"") == v + "\"";
      assert (v + "\"")[..|v|] == v;
      assert TrimRightQuotes(v + "\"") == TrimRightQuotes(v) == v;
    }
  }

  predicate HasPrefix(s: string, p: string) {
    |p| <= |s| && s[..|p|] == p
  }

  predicate HasSuffix(s: string, p: string) {
    |p| <= |s| && s[|s| - |p|..] == p
  }

  /** What left-trimming quotes removes comes from the front. */
  lemma {:induction false} TrimLeftQuotesDrops(s: string)
    ensures s[|s| - |TrimLeftQuotes(s)|..] == TrimLeftQuotes(s)
    decreases |s|
  {
    if s != [] && s[0] == '"' {
      TrimLeftQuotesDrops(s[1..]);
      assert s[1..][|s| - 1 - |TrimLeftQuotes(s)|..] == s[|s| - |TrimLeftQuotes(s)|..];
    }
  }

  /** What right-trimming quotes removes comes from the back. */
  lemma {:induction false} TrimRightQuotesDrops(s: string)
    ensures s[..|TrimRightQuotes(s)|] == TrimRightQuotes(s)
    decreases |s|
  {
    if s != [] && s[|s| - 1] == '"' {
      TrimRightQuotesDrops(s[..|s| - 1]);
      assert s[..|s| - 1][..|TrimRightQuotes(s)|] == s[..|TrimRightQuotes(s)|];
    }
  }

  /** `strings.TrimPrefix`. */
  function TrimPrefix(s: string, p: string): (r: string)
    ensures HasPrefix(s, p) ==> s == p + r
    ensures !HasPrefix(s, p) ==> r == s
  {
    if HasPrefix(s, p) then s[|p|..] else s
  }

  /** `sub` occurs in `s` starting at index `i`. */
  predicate OccursAt(s: string, sub: string, i: int) {
    0 <= i && i + |sub| <= |s| && s[i..i + |sub|] == sub
  }

  /** `strings.Contains`: `sub` occurs somewhere in `s`. */
  predicate Contains(s: string, sub: string) {
    exists i :: 0 <= i <= |s| && OccursAt(s, sub, i)
  }

  /** Every string contains itself. */
  lemma ContainsSelf(s: string)
    ensures Contains(s, s)
  {
    assert OccursAt(s, s, 0);
  }

  /** An occurrence inside a prefix is an occurrence in the whole string. */
  lemma ContainsInPrefix(s: string, n: nat, sub: string)
    requires n <= |s|
    requires Contains(s[..n], sub)
    ensures Contains(s, sub)
  {
    var i :| 0 <= i <= n && OccursAt(s[..n], sub, i);
    assert i + |sub| <= n;
    assert s[..n][i..i + |sub|] == s[i..i + |sub|];
    assert OccursAt(s, sub, i);
  }

  /** A slice of `s` occurs in `s`. */
  lemma SliceContained(s: string, a: nat, b: nat)
    requires a <= b <= |s|
    ensures Contains(s, s[a..b])
  {
    assert OccursAt(s, s[a..b], a);
  }

  /** Both sides of a separator occur in the text they were split from. */
  lemma SplitContained(s: string, a: string, b: string, c: char)
    requires s == a + [c] + b
    ensures Contains(s, a) && Contains(s, b)
  {
    assert s[0..|a|] == a;
    SliceContained(s, 0, |a|);
    assert s[|a| + 1..|s|] == b;
    SliceContained(s, |a| + 1, |s|);
  }

  /** An occurrence inside an occurrence is an occurrence. */
  lemma ContainsTrans(s: string, t: string, m: string)
    requires Contains(s, t) && Contains(t, m)
    ensures Contains(s, m)
  {
    var i :| 0 <= i <= |s| && OccursAt(s, t, i);
    var j :| 0 <= j <= |t| && OccursAt(t, m, j);
    assert forall k :: 0 <= k < |m| ==> m[k] == t[j + k] == s[i + j + k];
    assert s[i + j..i + j + |m|] == m;
    assert OccursAt(s, m, i + j);
  }

  /** A character of a piece of `s` is a character of `s`. */
  lemma CharContained(s: string, t: string)
    requires Contains(s, t)
    ensures forall c :: c in t ==> c in s
  {
    var i :| 0 <= i <= |s| && OccursAt(s, t, i);
    forall c | c in t
      ensures c in s
    {
      var k :| 0 <= k < |t| && t[k] == c;
      assert s[i + k] == t[k];
    }
  }

  /** Trimming blanks keeps a piece of the string. */
  lemma TrimSpaceContained(s: string)
    ensures Contains(s, TrimSpace(s))
  {
    var l := TrimLeftSpace(s);
    TrimLeftSpaceDrops(s);
    TrimRightSpaceDrops(l);
    SliceContained(s, |s| - |l|, |s|);
    assert s[|s| - |l|..|s|] == l;
    SliceContained(l, 0, |TrimSpace(s)|);
    assert l[0..|TrimSpace(s)|] == TrimSpace(s);
    ContainsTrans(s, l, TrimSpace(s));
  }

  /** Trimming quotes keeps a piece of the string. */
  lemma TrimQuotesContained(s: string)
    ensures Contains(s, TrimQuotes(s))
  {
    var l := TrimLeftQuotes(s);
    TrimLeftQuotesDrops(s);
    TrimRightQuotesDrops(l);
    SliceContained(s, |s| - |l|, |s|);
    assert s[|s| - |l|..|s|] == l;
    SliceContained(l, 0, |TrimQuotes(s)|);
    assert l[0..|TrimQuotes(s)|] == TrimQuotes(s);
    ContainsTrans(s, l, TrimQuotes(s));
  }

  /** Removing a prefix keeps a piece of the string. */
  lemma TrimPrefixContained(s: string, p: string)
    ensures Contains(s, TrimPrefix(s, p))
  {
    if HasPrefix(s, p) {
      SliceContained(s, |p|, |s|);
      assert s[|p|..|s|] == TrimPrefix(s, p);
    } else {
      SliceContained(s, 0, |s|);
      assert s[0..|s|] == s;
    }
  }

  /** A pattern holding a character that `s` lacks cannot occur in `s`. */
  lemma MissingCharNotContained(s: string, sub: string, c: char)
    requires c in sub && c !in s
    ensures !Contains(s, sub)
  {
    forall i | 0 <= i <= |s|
      ensures !OccursAt(s, sub, i)
    {
      if i + |sub| <= |s| {
        var t := s[i..i + |sub|];
        assert forall x :: x in t ==> x in s;
        assert c !in t;
      }
    }
  }

  /** Index of the first occurrence of `c` in `s`. */
  function IndexOf(s: string, c: char): (r: Option<nat>)
    ensures r.None? <==> c !in s
    ensures r.Some? ==> r.value < |s| && s[r.value] == c && c !in s[..r.value]
  {
    if s == [] then None
    else if s[0] == c then Some(0)
    else match IndexOf(s[1..], c)
      case None => None
      case Some(i) =>
        assert s[..i + 1] == [s[0]] + s[1..][..i];
        Some(i + 1)
  }

  /** The first `c` of `a + [c] + b` is the one after `a` when `a` has none. */
  lemma {:induction false} IndexOfAfter(a: string, c: char, b: string)
    requires c !in a
    ensures IndexOf(a + [c] + b, c) == Some(|a|)
    decreases |a|
  {
    if a != [] {
      assert (a + [c] + b)[1..] == a[1..] + [c] + b;
      IndexOfAfter(a[1..], c, b);
    }
  }

  /** `strings.SplitN(s, string(c), 2)` when it yields two parts (Go's
      `strings.Cut`): the text before the first `c` and the text after it. */
  function SplitOnce(s: string, c: char): (r: Option<(string, string)>)
    ensures r.None? <==> c !in s
    ensures r.Some? ==> s == r.value.0 + [c] + r.value.1 && c !in r.value.0
  {
    match IndexOf(s, c)
    case None => None
    case Some(i) =>
      assert s == s[..i] + [c] + s[i + 1..];
      Some((s[..i], s[i + 1..]))
  }

  /** `bufio.ScanLines` drops one carriage return at the end of a line. */
  function DropCR(line: string): (r: string)
    ensures r == line || (line == r + "\r")
  {
    if line != [] && line[|line| - 1] == '\r' then line[..|line| - 1] else line
  }

  function DropCRs(lines: seq<string>): (r: seq<string>)
    ensures |r| == |lines|
  {
    seq(|lines|, i requires 0 <= i < |lines| => DropCR(lines[i]))
  }

  lemma DropCRsAppend(a: seq<string>, b: seq<string>)
    ensures DropCRs(a + b) == DropCRs(a) + DropCRs(b)
  {
  }

  /** No line holds a newline. */
  predicate NoNewlines(lines: seq<string>) {
    forall i :: 0 <= i < |lines| ==> '\n' !in lines[i]
  }

  lemma NoNewlinesAppend(a: seq<string>, b: seq<string>)
    requires NoNewlines(a) && NoNewlines(b)
    ensures NoNewlines(a + b)
  {
    forall i | 0 <= i < |a + b|
      ensures '\n' !in (a + b)[i]
    {
      if i >= |a| {
        assert (a + b)[i] == b[i - |a|];
      }
    }
  }

  /** The lines a `bufio.Scanner` with its default `ScanLines` split yields
      for a file's text: the text is cut at every `\n`, each piece loses one
      trailing `\r`, and a final empty piece (text ending in `\n`) is not a line. */
  function ScanLines(t: string): (lines: seq<string>)
    ensures NoNewlines(lines)
    ensures '\n' !in t ==> lines == (if t == [] then [] else [DropCR(t)])
    decreases |t|
  {
    if t == [] then []
    else match IndexOf(t, '\n')
      case None => [DropCR(t)]
      case Some(i) => [DropCR(t[..i])] + ScanLines(t[i + 1..])
  }

  /** `strings.Join(lines, "\n")`. */
  function JoinLines(lines: seq<string>): (r: string)
    ensures NoNewlines(lines) ==> ('\n' in r <==> |lines| >= 2)
    ensures |lines| >= 2 ==> |lines[0]| < |r| && r[|lines[0]|] == '\n' && r[..|lines[0]|] == lines[0]
  {
    if lines == [] then ""
    else if |lines| == 1 then lines[0]
    else
      var r := lines[0] + "\n" + JoinLines(lines[1..]);
      assert r[|lines[0]|] == '\n' && r[..|lines[0]|] == lines[0];
      r
  }

  /** Removes the last line when it is empty (the scanner never yields it back). */
  function DropFinalEmpty(lines: seq<string>): (r: seq<string>)
    ensures lines != [] && lines[|lines| - 1] == [] ==> r == lines[..|lines| - 1]
    ensures !(lines != [] && lines[|lines| - 1] == []) ==> r == lines
  {
    if lines != [] && lines[|lines| - 1] == [] then lines[..|lines| - 1] else lines
  }

  /** Scanning a text whose first line is `a` yields `a` and then the lines of the rest. */
  lemma ScanLinesCons(a: string, rest: string)
    requires '\n' !in a
    ensures ScanLines(a + "\n" + rest) == [DropCR(a)] + ScanLines(rest)
  {
    var t := a + "\n" + rest;
    IndexOfAfter(a, '\n', rest);
    assert t[..|a|] == a;
    assert t[|a| + 1..] == rest;
  }

  /** A text without a newline is one line, or none when it is empty. */
  lemma ScanSingleLine(line: string)
    requires '\n' !in line
    ensures ScanLines(JoinLines([line])) == DropCRs(DropFinalEmpty([line]))
  {
    if line != [] {
      assert IndexOf(line, '\n').None?;
      assert DropCRs([line]) == [DropCR(line)];
    }
  }

  /** Writing lines joined by `\n` and scanning the file again gives the same
      lines back, except that a final empty line is lost and each line loses
      one trailing carriage return. */
  lemma {:induction false} ScanJoin(lines: seq<string>)
    requires NoNewlines(lines)
    ensures ScanLines(JoinLines(lines)) == DropCRs(DropFinalEmpty(lines))
    decreases |lines|
  {
    if |lines| == 0 {
    } else if |lines| == 1 {
      assert '\n' !in lines[0];
      ScanSingleLine(lines[0]);
      assert lines == [lines[0]];
    } else {
      assert NoNewlines(lines[1..]) by {
        assert forall i :: 0 <= i < |lines[1..]| ==> lines[1..][i] == lines[i + 1];
      }
      ScanJoin(lines[1..]);
      ScanJoinStep(lines);
    }
  }

  /** The inductive step of ScanJoin: one more line in front. */
  lemma ScanJoinStep(lines: seq<string>)
    requires |lines| >= 2 && '\n' !in lines[0]
    requires ScanLines(JoinLines(lines[1..])) == DropCRs(DropFinalEmpty(lines[1..]))
    ensures ScanLines(JoinLines(lines)) == DropCRs(DropFinalEmpty(lines))
  {
    var rest := JoinLines(lines[1..]);
    assert JoinLines(lines) == lines[0] + "\n" + rest;
    ScanLinesCons(lines[0], rest);
    var tail := DropFinalEmpty(lines[1..]);
    DropFinalEmptyCons(lines);
    DropCRsAppend([lines[0]], tail);
  }

  lemma DropFinalEmptyCons(lines: seq<string>)
    requires |lines| >= 2
    ensures DropFinalEmpty(lines) == [lines[0]] + DropFinalEmpty(lines[1..])
  {
    if lines[|lines| - 1] == [] {
      assert lines[1..][..|lines| - 2] == lines[1..|lines| - 1];
    }
  }

}
