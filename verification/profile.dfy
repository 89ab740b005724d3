/** The POSIX backend of the variable store (internal/config/manager_unix.go):
    the managed variables live as `export KEY="VALUE"` lines in a block
    between two marker lines of one shell start-up file. A file is its text
    (`None` when it cannot be opened); every operation is a pure function
    from the old text to the new one. */
module Profile {
  import opened Wrappers
  import opened Text
  import opened Enumeration
  import opened FixedLines

  /** The lines written in front of the export lines: a blank line, the
      begin marker and the two comments. */
  const BlockHead: seq<string> := ["", MarkerBegin, HeaderComment, ManagedComment]

  /** A file's text, or `None` when `os.Open` fails (typically: it does not exist). */
  type File = Option<string>

  /** The source tests for the begin marker first, so a line holding both
      markers counts as a begin line. */
  predicate IsBeginLine(line: string) {
    Contains(line, MarkerBegin)
  }

  predicate IsEndLine(line: string) {
    !Contains(line, MarkerBegin) && Contains(line, MarkerEnd)
  }

  predicate IsMarkerLine(line: string) {
    Contains(line, MarkerBegin) || Contains(line, MarkerEnd)
  }

  predicate NoMarkerLines(lines: seq<string>) {
    forall i :: 0 <= i < |lines| ==> !IsMarkerLine(lines[i])
  }

  predicate NoEndLines(lines: seq<string>) {
    forall i :: 0 <= i < |lines| ==> !IsEndLine(lines[i])
  }

  // ---------------------------------------------------------------------
  // Reading the block (getAllVarsFromProfile)
  // ---------------------------------------------------------------------

  /** The assignment a line of the block carries: only lines whose trimmed
      form starts with `export ` and that hold an `=`. The key is the text
      before the first `=` with a leading `export` removed and blanks
      trimmed; the value is the rest with every leading and trailing
      double quote removed. */
  function ParseExport(line: string): (r: Option<(string, string)>)
    ensures r.Some? <==> HasPrefix(TrimSpace(line), "export ") && '=' in line
    ensures r.Some? ==> (SplitOnce(line, '=').Some?
      && r.value.0 == TrimSpace(TrimPrefix(SplitOnce(line, '=').value.0, "export"))
      && r.value.1 == TrimQuotes(SplitOnce(line, '=').value.1))
    ensures r.Some? ==> '=' !in r.value.0 && NoEdgeSpace(r.value.0)
    ensures r.Some? ==> NoEdgeQuote(r.value.1)
  {
    if !HasPrefix(TrimSpace(line), "export ") then None
    else match SplitOnce(line, '=')
      case None => None
      case Some(parts) =>
        var key := TrimSpace(TrimPrefix(parts.0, "export"));
        KeyPiece(parts.0);
        CharContained(parts.0, key);
        Some((key, TrimQuotes(parts.1)))
  }

  /** The key is a piece of the text before the `=`. */
  lemma KeyPiece(before: string)
    ensures Contains(before, TrimSpace(TrimPrefix(before, "export")))
  {
    TrimPrefixContained(before, "export");
    TrimSpaceContained(TrimPrefix(before, "export"));
    ContainsTrans(before, TrimPrefix(before, "export"), TrimSpace(TrimPrefix(before, "export")));
  }

  /** `export` is removed before the blanks are trimmed, so on an indented
      line it stays in the key: ` export FOO=bar` assigns `export FOO`. */
  lemma IndentedExportKeepsWord(k: string, v: string)
    requires k != [] && NoEdgeSpace(k) && '=' !in k
    ensures ParseExport(" export " + k + "=" + v) == Some(("export " + k, TrimQuotes(v)))
  {
    var lhs := " export " + k;
    IndentedLine(k, v);
    IndentedKey(k);
    IndentedSplit(lhs, v);
  }

  /** An indented export line passes the `export ` test. */
  lemma IndentedLine(k: string, v: string)
    ensures HasPrefix(TrimSpace(" export " + k + "=" + v), "export ")
  {
    var w := "export " + k + "=" + v;
    assert " export " + k + "=" + v == " " + w;
    assert w[..7] == "export " && w[7 + |k|] == '=';
    LeadingBlank(w);
    var r := TrimRightSpace(w);
    TrimRightSpaceDrops(w);
    assert |r| > 7 + |k|;
    assert r[..7] == w[..7];
  }

  /** One leading blank in front of a word is trimmed. */
  lemma LeadingBlank(w: string)
    requires w != [] && w[0] == 'e'
    ensures TrimSpace(" " + w) == TrimRightSpace(w)
  {
    assert (" " + w)[0] == ' ' && (" " + w)[1..] == w;
    assert TrimLeftSpace(" " + w) == TrimLeftSpace(w) == w;
  }

  /** The key of an indented line keeps its `export`. */
  lemma IndentedKey(k: string)
    requires k != [] && NoEdgeSpace(k)
    ensures TrimSpace(TrimPrefix(" export " + k, "export")) == "export " + k
  {
    var lhs := " export " + k;
    assert !HasPrefix(lhs, "export") by {
      assert lhs[..6][0] == ' ';
    }
    var w := "export " + k;
    assert lhs == " " + w;
    LeadingBlank(w);
    assert w[|w| - 1] == k[|k| - 1];
  }

  /** The first `=` of an indented line follows the key. */
  lemma IndentedSplit(lhs: string, v: string)
    requires '=' !in lhs
    ensures SplitOnce(lhs + "=" + v, '=') == Some((lhs, v))
  {
    var line := lhs + "=" + v;
    IndexOfAfter(lhs, '=', v);
    assert line == lhs + ['='] + v;
    assert line[..|lhs|] == lhs && line[|lhs| + 1..] == v;
  }

  /** A line starting with a character other than a blank or `e` (a comment,
      say) is not an assignment. */
  lemma NotExportLine(line: string)
    requires line != [] && !IsSpace(line[0]) && line[0] != 'e'
    ensures ParseExport(line).None?
  {
    var t := TrimSpace(line);
    assert TrimLeftSpace(line) == line;
    assert !HasPrefix(t, "export ") by {
      if |t| >= 7 {
        assert t[0] == line[0];
        assert t[..7][0] == t[0];
      }
    }
  }

  /** The loop of getAllVarsFromProfile: a begin line opens the block, the
      first end line stops the scan (even one met before any begin line),
      and inside the block each `export` line overrides earlier ones. */
  function ParseLines(lines: seq<string>, inBlock: bool, acc: map<string, string>): (r: map<string, string>)
    ensures acc.Keys <= r.Keys
    decreases |lines|
  {
    if lines == [] then acc
    else if IsBeginLine(lines[0]) then ParseLines(lines[1..], true, acc)
    else if Contains(lines[0], MarkerEnd) then acc
    else if inBlock then
      match ParseExport(lines[0])
      case Some(kv) => ParseLines(lines[1..], inBlock, acc[kv.0 := kv.1])
      case None => ParseLines(lines[1..], inBlock, acc)
    else ParseLines(lines[1..], inBlock, acc)
  }

  function ParseBlock(lines: seq<string>): map<string, string> {
    ParseLines(lines, false, map[])
  }

  /** The lines of a file as the scanner yields them; none for a missing file. */
  function FileLines(file: File): seq<string> {
    match file
    case None => []
    case Some(t) => ScanLines(t)
  }

  /** getAllVarsFromProfile: a file that cannot be opened holds no variables,
      and every entry read is one the block can carry back unchanged. */
  function ReadVars(file: File): (vars: map<string, string>)
    ensures file.None? ==> vars == map[]
    ensures RenderableMap(vars)
  {
    ParseLinesRenderable(FileLines(file), false, map[]);
    ParseBlock(FileLines(file))
  }

  // ---------------------------------------------------------------------
  // The block window: what the parser looks at
  // ---------------------------------------------------------------------

  /** Index of the first end line, or `|lines|` when there is none. */
  function EndIndex(lines: seq<string>): (e: nat)
    ensures e <= |lines|
    ensures e < |lines| ==> IsEndLine(lines[e])
    ensures NoEndLines(lines[..e])
  {
    if lines == [] then 0
    else if IsEndLine(lines[0]) then 0
    else
      var e := EndIndex(lines[1..]);
      assert lines[..e + 1] == [lines[0]] + lines[1..][..e];
      e + 1
  }

  /** Index of the first begin line, if any. */
  function BeginIndex(lines: seq<string>): (b: Option<nat>)
    ensures b.None? ==> forall i :: 0 <= i < |lines| ==> !IsBeginLine(lines[i])
    ensures b.Some? ==> b.value < |lines| && IsBeginLine(lines[b.value])
    ensures b.Some? ==> forall i :: 0 <= i < b.value ==> !IsBeginLine(lines[i])
  {
    if lines == [] then None
    else if IsBeginLine(lines[0]) then Some(0)
    else match BeginIndex(lines[1..])
      case None => None
      case Some(i) => Some(i + 1)
  }

  /** Inside the block the scan ends at the first end line. */
  lemma {:induction false} ParseInBlockStops(lines: seq<string>, acc: map<string, string>)
    ensures ParseLines(lines, true, acc) == ParseLines(lines[..EndIndex(lines)], true, acc)
    decreases |lines|
  {
    if lines != [] && !IsEndLine(lines[0]) {
      ParseInBlockStops(lines[1..], if IsBeginLine(lines[0]) then acc else
        match ParseExport(lines[0]) case Some(kv) => acc[kv.0 := kv.1] case None => acc);
      assert lines[..EndIndex(lines)][1..] == lines[1..][..EndIndex(lines[1..])];
    }
  }

  /** Parsing considers only the lines strictly between the first begin line
      and the first end line; with no begin line before that end line (or
      before the end of the file) the block is empty. */
  lemma {:induction false} ParseWindow(lines: seq<string>)
    ensures var e := EndIndex(lines);
      ParseBlock(lines) ==
        match BeginIndex(lines[..e])
        case None => map[]
        case Some(b) => ParseLines(lines[b + 1..e], true, map[])
    decreases |lines|
  {
    var e := EndIndex(lines);
    if lines == [] || IsEndLine(lines[0]) {
    } else if IsBeginLine(lines[0]) {
      ParseInBlockStops(lines[1..], map[]);
      assert lines[..e][0] == lines[0];
      assert lines[1..][..EndIndex(lines[1..])] == lines[1..e];
    } else {
      ParseWindow(lines[1..]);
      var e' := EndIndex(lines[1..]);
      assert lines[..e][1..] == lines[1..][..e'];
      match BeginIndex(lines[1..][..e'])
      case None =>
      case Some(b) =>
        assert lines[1..][b + 1..e'] == lines[b + 2..e];
    }
  }

  /** The assignment a line between the markers contributes (begin lines there are skipped). */
  function BodyAssignment(line: string): Option<(string, string)> {
    if IsBeginLine(line) then None else ParseExport(line)
  }

  /** The assignments of the body lines, one per line. */
  function BodyAssignments(body: seq<string>): (r: seq<Option<(string, string)>>)
    ensures |r| == |body|
    ensures forall i :: 0 <= i < |body| ==> r[i] == BodyAssignment(body[i])
  {
    seq(|body|, i requires 0 <= i < |body| => BodyAssignment(body[i]))
  }

  /** Performs assignments left to right, so a later one overrides an earlier one. */
  function Assign(acc: map<string, string>, a: seq<Option<(string, string)>>): map<string, string>
    decreases |a|
  {
    if a == [] then acc
    else Assign(if a[0].Some? then acc[a[0].value.0 := a[0].value.1] else acc, a[1..])
  }

  /** Between the markers the parser performs the body's assignments in order. */
  lemma {:induction false} ParseBodyAssign(body: seq<string>, acc: map<string, string>)
    requires NoEndLines(body)
    ensures ParseLines(body, true, acc) == Assign(acc, BodyAssignments(body))
    decreases |body|
  {
    if body != [] {
      assert !IsEndLine(body[0]);
      var a := BodyAssignments(body);
      assert BodyAssignments(body[1..]) == a[1..];
      var acc' := if a[0].Some? then acc[a[0].value.0 := a[0].value.1] else acc;
      ParseBodyStep(body, acc);
      ParseBodyAssign(body[1..], acc');
    }
  }

  /** One line of the body: the parser performs its assignment and goes on. */
  lemma ParseBodyStep(body: seq<string>, acc: map<string, string>)
    requires body != [] && !IsEndLine(body[0])
    ensures var a := BodyAssignment(body[0]);
      ParseLines(body, true, acc) == ParseLines(body[1..], true, if a.Some? then acc[a.value.0 := a.value.1] else acc)
  {
  }

  predicate AssignsKey(a: Option<(string, string)>, k: string) {
    a.Some? && a.value.0 == k
  }

  /** A key is assigned exactly when it was there before or some assignment names it. */
  lemma {:induction false} AssignKeys(acc: map<string, string>, a: seq<Option<(string, string)>>, k: string)
    ensures k in Assign(acc, a) <==> k in acc || exists i :: 0 <= i < |a| && AssignsKey(a[i], k)
    decreases |a|
  {
    if a != [] {
      var acc' := if a[0].Some? then acc[a[0].value.0 := a[0].value.1] else acc;
      AssignKeys(acc', a[1..], k);
      if exists i :: 0 <= i < |a| && AssignsKey(a[i], k) {
        var i :| 0 <= i < |a| && AssignsKey(a[i], k);
        if i > 0 {
          assert AssignsKey(a[1..][i - 1], k);
        }
      }
      if exists i :: 0 <= i < |a[1..]| && AssignsKey(a[1..][i], k) {
        var i :| 0 <= i < |a[1..]| && AssignsKey(a[1..][i], k);
        assert AssignsKey(a[i + 1], k);
      }
    }
  }

  /** A key no assignment names keeps the value it had. */
  lemma {:induction false} AssignUntouched(acc: map<string, string>, a: seq<Option<(string, string)>>, k: string)
    requires forall j :: 0 <= j < |a| ==> !AssignsKey(a[j], k)
    requires k in acc
    ensures k in Assign(acc, a) && Assign(acc, a)[k] == acc[k]
    decreases |a|
  {
    if a != [] {
      var acc' := if a[0].Some? then acc[a[0].value.0 := a[0].value.1] else acc;
      assert !AssignsKey(a[0], k);
      assert forall j :: 0 <= j < |a[1..]| ==> a[1..][j] == a[j + 1];
      AssignUntouched(acc', a[1..], k);
    }
  }

  /** The last assignment naming a key decides its value. */
  lemma {:induction false} AssignLastWins(acc: map<string, string>, a: seq<Option<(string, string)>>, i: nat)
    requires i < |a| && a[i].Some?
    requires forall j :: i < j < |a| ==> !AssignsKey(a[j], a[i].value.0)
    ensures a[i].value.0 in Assign(acc, a) && Assign(acc, a)[a[i].value.0] == a[i].value.1
    decreases |a|
  {
    var acc' := if a[0].Some? then acc[a[0].value.0 := a[0].value.1] else acc;
    assert forall j :: 0 <= j < |a[1..]| ==> a[1..][j] == a[j + 1];
    if i == 0 {
      AssignUntouched(acc', a[1..], a[0].value.0);
    } else {
      AssignLastWins(acc', a[1..], i - 1);
    }
  }

  /** Lines without markers in front of the block are ignored. */
  lemma {:induction false} ParseSkipsPlain(plain: seq<string>, rest: seq<string>, acc: map<string, string>)
    requires NoMarkerLines(plain)
    ensures ParseLines(plain + rest, false, acc) == ParseLines(rest, false, acc)
    decreases |plain|
  {
    if plain != [] {
      var lines := plain + rest;
      assert lines[0] == plain[0] && !IsMarkerLine(plain[0]);
      assert lines[1..] == plain[1..] + rest;
      assert ParseLines(lines, false, acc) == ParseLines(lines[1..], false, acc);
      ParseSkipsPlain(plain[1..], rest, acc);
    } else {
      assert plain + rest == rest;
    }
  }

  /** Without a begin line nothing is ever read. */
  lemma {:induction false} ParseWithoutBegin(lines: seq<string>, acc: map<string, string>)
    requires forall i :: 0 <= i < |lines| ==> !IsBeginLine(lines[i])
    ensures ParseLines(lines, false, acc) == acc
    decreases |lines|
  {
    if lines != [] {
      ParseWithoutBegin(lines[1..], acc);
    }
  }

  // ---------------------------------------------------------------------
  // Rewriting the file (writeVarsToProfile, removeBlockFromProfile)
  // ---------------------------------------------------------------------

  /** The loop shared by writeVarsToProfile and removeBlockFromProfile:
      marker lines and every line of a marked region are dropped, the other
      lines are kept in order. An unterminated region runs to the end. */
  function StripBlocks(lines: seq<string>, inBlock: bool): (r: seq<string>)
    ensures |r| <= |lines|
    ensures NoMarkerLines(r)
    ensures forall i :: 0 <= i < |r| ==> r[i] in lines
    decreases |lines|
  {
    if lines == [] then []
    else if IsBeginLine(lines[0]) then StripBlocks(lines[1..], true)
    else if Contains(lines[0], MarkerEnd) then StripBlocks(lines[1..], false)
    else if inBlock then StripBlocks(lines[1..], inBlock)
    else [lines[0]] + StripBlocks(lines[1..], inBlock)
  }

  /** Lines outside any marked region are kept verbatim. */
  lemma {:induction false} StripKeepsPlain(plain: seq<string>, rest: seq<string>)
    requires NoMarkerLines(plain)
    ensures StripBlocks(plain + rest, false) == plain + StripBlocks(rest, false)
    decreases |plain|
  {
    if plain != [] {
      assert (plain + rest)[0] == plain[0] && !IsMarkerLine(plain[0]);
      assert (plain + rest)[1..] == plain[1..] + rest;
      StripKeepsPlain(plain[1..], rest);
      assert [plain[0]] + (plain[1..] + StripBlocks(rest, false)) == plain + StripBlocks(rest, false);
    } else {
      assert plain + rest == rest;
    }
  }

  /** Inside a region everything up to and including its end line goes. */
  lemma {:induction false} StripDropsRegionBody(body: seq<string>, rest: seq<string>)
    requires NoEndLines(body)
    requires rest != [] && IsEndLine(rest[0])
    ensures StripBlocks(body + rest, true) == StripBlocks(rest[1..], false)
    decreases |body|
  {
    if body != [] {
      assert (body + rest)[1..] == body[1..] + rest;
      StripDropsRegionBody(body[1..], rest);
    } else {
      assert body + rest == rest;
    }
  }

  /** A whole marked region disappears, and the text after it is processed
      as if the region had never been there; so every region goes, not just
      the first. */
  lemma StripDropsRegion(plain: seq<string>, begin: string, body: seq<string>, end: string, rest: seq<string>)
    requires NoMarkerLines(plain) && IsBeginLine(begin) && NoEndLines(body) && IsEndLine(end)
    ensures StripBlocks(plain + [begin] + body + [end] + rest, false) == plain + StripBlocks(rest, false)
  {
    assert plain + [begin] + body + [end] + rest == plain + ([begin] + body + [end] + rest);
    StripKeepsPlain(plain, [begin] + body + [end] + rest);
    assert ([begin] + body + [end] + rest)[1..] == body + ([end] + rest);
    StripDropsRegionBody(body, [end] + rest);
    assert ([end] + rest)[1..] == rest;
  }

  /** `export KEY="VALUE"`, the line written for one entry. */
  function ExportLine(k: string, v: string): string {
    "export " + k + "=\"" + v + "\""
  }

  /** One export line per key, in the order the map iteration visits the keys. */
  function ExportLines(vars: map<string, string>, order: seq<string>): (r: seq<string>)
    requires forall i :: 0 <= i < |order| ==> order[i] in vars
    ensures |r| == |order|
    ensures forall i :: 0 <= i < |order| ==> r[i] == ExportLine(order[i], vars[order[i]])
  {
    if order == [] then [] else [ExportLine(order[0], vars[order[0]])] + ExportLines(vars, order[1..])
  }

  /** The block appended at the end of the file, with a blank line before and after. */
  function RenderBlock(vars: map<string, string>, order: seq<string>): (r: seq<string>)
    requires forall i :: 0 <= i < |order| ==> order[i] in vars
  {
    BlockHead + ExportLines(vars, order) + [MarkerEnd, ""]
  }

  /** The lines writeVarsToProfile writes: the old lines with every marked
      region removed, then a fresh block. */
  function WriteVarsLines(file: File, vars: map<string, string>, order: seq<string>): seq<string>
    requires IsEnumeration(order, vars.Keys)
  {
    StripBlocks(FileLines(file), false) + RenderBlock(vars, order)
  }

  /** The text writeVarsToProfile stores (lines joined by newlines). Scanned
      again it gives the old lines outside every marked region, each without
      one trailing carriage return, then the block up to its end marker. */
  function WriteVars(file: File, vars: map<string, string>, order: seq<string>): (text: string)
    requires IsEnumeration(order, vars.Keys)
    ensures RenderableMap(vars) ==>
      ScanLines(text) == DropCRs(StripBlocks(FileLines(file), false)) + BlockHead + ExportLines(vars, order) + [MarkerEnd]
  {
    if RenderableMap(vars) then
      ScanWritten(file, vars, order);
      JoinLines(WriteVarsLines(file, vars, order))
    else JoinLines(WriteVarsLines(file, vars, order))
  }

  /** What an operation does to the file: nothing, or replace its text. */
  datatype Edit = Untouched | Rewrite(text: string)

  /** The file after an edit. */
  function Apply(file: File, e: Edit): File {
    match e
    case Untouched => file
    case Rewrite(t) => Some(t)
  }

  datatype WriteError = WriteFailed

  /** Storing an edit with os.WriteFile, whose success `writeOk` is an input:
      leaving the file alone involves no write and cannot fail; a rewrite
      fails exactly when the write does. What a failed write leaves in the
      file is not modelled. */
  function Commit(file: File, e: Edit, writeOk: bool): (r: Result<File, WriteError>)
    ensures r.Err? <==> e.Rewrite? && !writeOk
    ensures r.Ok? && e.Untouched? ==> r.value == file
    ensures r.Ok? && e.Rewrite? ==> r.value == Some(e.text)
  {
    match e
    case Untouched => Ok(file)
    case Rewrite(t) => if writeOk then Ok(Some(t)) else Err(WriteFailed)
  }

  /** removeBlockFromProfile: a file that cannot be opened is left alone
      (and that is a success); otherwise every marked region is removed. */
  function RemoveBlock(file: File): (e: Edit)
    ensures file.None? <==> e.Untouched?
  {
    match file
    case None => Untouched
    case Some(t) => Rewrite(JoinLines(StripBlocks(ScanLines(t), false)))
  }

  /** setEnvVarUnix: read the whole block, update one key, rewrite the
      whole block (always a write). A renderable entry reads back as set. */
  function SetVar(file: File, key: string, value: string, order: seq<string>): (text: string)
    requires IsEnumeration(order, ReadVars(file)[key := value].Keys)
    ensures Renderable(key, value) ==> key in ReadVars(Some(text)) && ReadVars(Some(text))[key] == value
  {
    var vars := ReadVars(file)[key := value];
    if Renderable(key, value) then
      ReadAfterWrite(file, vars, order);
      WriteVars(file, vars, order)
    else WriteVars(file, vars, order)
  }

  /** deleteEnvVarUnix: read the whole block, drop one key; an empty result
      removes the block instead of writing an empty one. A file that cannot
      be opened is never written; one that can is always rewritten. */
  function DeleteVar(file: File, key: string, order: seq<string>): (e: Edit)
    requires IsEnumeration(order, (ReadVars(file) - {key}).Keys)
    ensures e.Untouched? <==> file.None?
  {
    var vars := ReadVars(file) - {key};
    if |vars| == 0 then RemoveBlock(file) else Rewrite(WriteVars(file, vars, order))
  }

  // ---------------------------------------------------------------------
  // Round trip
  // ---------------------------------------------------------------------

  /** An entry the block can carry and give back unchanged: the key holds no
      `=` and no blanks at its ends, the value no leading or trailing double
      quote, neither holds a newline, and the line does not look like a marker. */
  predicate Renderable(k: string, v: string) {
    && '=' !in k && NoEdgeSpace(k) && '\n' !in k
    && '\n' !in v && NoEdgeQuote(v)
    && !IsMarkerLine(ExportLine(k, v))
  }

  predicate RenderableMap(vars: map<string, string>) {
    forall k :: k in vars ==> Renderable(k, vars[k])
  }

  /** A marker cannot straddle the `=` or the quotes of an export line, so
      one occurring in the line occurs in its key or in its value. */
  lemma NoStraddle(pre: string, k: string, v: string, m: string)
    requires m != [] && m[0] == '#' && '#' !in pre && '=' !in m && '"' !in m
    requires !Contains(k, m) && !Contains(v, m)
    ensures !Contains(pre + k + "=\"" + v + "\"", m)
  {
    var line := pre + k + "=\"" + v + "\"";
    var e := |pre| + |k|;
    assert |line| == e + |v| + 3;
    assert line[e] == '=' && line[e + 1] == '"' && line[|line| - 1] == '"';
    forall i | 0 <= i <= |line| && OccursAt(line, m, i)
      ensures false
    {
      assert line[i] == m[0];
      if i < |pre| {
      } else if i + |m| <= e {
        assert line[i..i + |m|] == k[i - |pre|..i - |pre| + |m|];
        assert OccursAt(k, m, i - |pre|);
      } else if i <= e {
      } else if i == e + 1 {
      } else if i + |m| == |line| {
      } else {
        assert line[i..i + |m|] == v[i - e - 2..i - e - 2 + |m|];
        assert OccursAt(v, m, i - e - 2);
      }
    }
  }

  /** The export line of a key and a value without markers holds no marker. */
  lemma ExportLineMarkerFree(k: string, v: string)
    requires !IsMarkerLine(k) && !IsMarkerLine(v)
    ensures !IsMarkerLine(ExportLine(k, v))
  {
    MarkersPunctuationFree();
    assert '#' !in "export ";
    NoStraddle("export ", k, v, MarkerBegin);
    NoStraddle("export ", k, v, MarkerEnd);
  }

  /** An assignment read from a line that is not a marker is an entry the
      block can carry: its key and value are pieces of the line, so they
      hold no newline and no marker, and the trimming cleans their ends. */
  lemma ParsedRenderable(line: string)
    requires '\n' !in line && !IsMarkerLine(line) && ParseExport(line).Some?
    ensures Renderable(ParseExport(line).value.0, ParseExport(line).value.1)
  {
    var (k, v) := ParseExport(line).value;
    ParsedPieces(line);
    CharContained(line, k);
    CharContained(line, v);
    PieceNotMarker(line, k);
    PieceNotMarker(line, v);
    ExportLineMarkerFree(k, v);
  }

  /** The key and the value of a parsed line are both pieces of that line. */
  lemma ParsedPieces(line: string)
    requires ParseExport(line).Some?
    ensures Contains(line, ParseExport(line).value.0)
    ensures Contains(line, ParseExport(line).value.1)
  {
    var parts := SplitOnce(line, '=').value;
    SplitContained(line, parts.0, parts.1, '=');
    KeyPiece(parts.0);
    ContainsTrans(line, parts.0, ParseExport(line).value.0);
    TrimQuotesContained(parts.1);
    ContainsTrans(line, parts.1, ParseExport(line).value.1);
  }

  /** A piece of a line without markers holds no marker. */
  lemma PieceNotMarker(line: string, t: string)
    requires Contains(line, t) && !IsMarkerLine(line)
    ensures !IsMarkerLine(t)
  {
    if Contains(t, MarkerBegin) {
      ContainsTrans(line, t, MarkerBegin);
    }
    if Contains(t, MarkerEnd) {
      ContainsTrans(line, t, MarkerEnd);
    }
  }

  /** Every entry the scan reads from lines without newlines is renderable. */
  lemma {:induction false} ParseLinesRenderable(lines: seq<string>, inBlock: bool, acc: map<string, string>)
    requires NoNewlines(lines) && RenderableMap(acc)
    ensures RenderableMap(ParseLines(lines, inBlock, acc))
    decreases |lines|
  {
    if lines != [] {
      assert NoNewlines(lines[1..]) by {
        assert forall i :: 0 <= i < |lines[1..]| ==> lines[1..][i] == lines[i + 1];
      }
      if IsBeginLine(lines[0]) {
        ParseLinesRenderable(lines[1..], true, acc);
      } else if Contains(lines[0], MarkerEnd) {
      } else if inBlock && ParseExport(lines[0]).Some? {
        var kv := ParseExport(lines[0]).value;
        assert '\n' !in lines[0];
        ParsedRenderable(lines[0]);
        ParseLinesRenderable(lines[1..], inBlock, acc[kv.0 := kv.1]);
      } else {
        ParseLinesRenderable(lines[1..], inBlock, acc);
      }
    }
  }

  /** A rendered export line parses back to its entry. */
  lemma ParseExportLine(k: string, v: string)
    requires Renderable(k, v)
    ensures ParseExport(ExportLine(k, v)) == Some((k, v))
    ensures '\n' !in ExportLine(k, v) && DropCR(ExportLine(k, v)) == ExportLine(k, v)
  {
    var line := ExportLine(k, v);
    var lhs, rhs := "export " + k, "\"" + v + "\"";
    ExportLineSplit(k, v);
    ExportLineStart(k, v);
    TrimSpaceClean(line);
    ExportKey(k);
    TrimQuotesQuoted(v);
    ExportLineEnd(k, v);
  }

  /** Regroups an export line around its first `=`, for ExportLineSplit. */
  lemma Split5<T>(a: seq<T>, k: seq<T>, e: T, q: T, v: seq<T>)
    ensures a + k + [e, q] + v + [q] == (a + k) + [e] + ([q] + v + [q])
  {
  }

  /** The first `=` of an export line ends its key. */
  lemma ExportLineSplit(k: string, v: string)
    requires '=' !in k
    ensures SplitOnce(ExportLine(k, v), '=') == Some(("export " + k, "\"" + v + "\""))
  {
    var lhs, rhs := "export " + k, "\"" + v + "\"";
    Split5("export ", k, '=', '"', v);
    assert ExportLine(k, v) == lhs + ['='] + rhs;
    assert '=' !in "export ";
    IndexOfAfter(lhs, '=', rhs);
    assert (lhs + ['='] + rhs)[..|lhs|] == lhs && (lhs + ['='] + rhs)[|lhs| + 1..] == rhs;
  }

  /** An export line starts with "export " and ends with a quote. */
  lemma ExportLineStart(k: string, v: string)
    ensures var line := ExportLine(k, v);
      HasPrefix(line, "export ") && line[0] == 'e' && line[|line| - 1] == '"'
  {
    var line := ExportLine(k, v);
    assert line == "export " + (k + "=\"" + v + "\"");
  }

  /** Removing "export" and blanks from "export " + k gives k back. */
  lemma ExportKey(k: string)
    requires NoEdgeSpace(k)
    ensures TrimSpace(TrimPrefix("export " + k, "export")) == k
  {
    var lhs := "export " + k;
    assert lhs[..6] == "export" && lhs[6..] == " " + k;
    TrimSpaceAfterBlank(k);
  }

  /** An export line of a single-line entry is a single line. */
  lemma ExportLineEnd(k: string, v: string)
    requires '\n' !in k && '\n' !in v
    ensures '\n' !in ExportLine(k, v) && DropCR(ExportLine(k, v)) == ExportLine(k, v)
  {
    ExportLineStart(k, v);
    assert '\n' !in "export " && '\n' !in "=\"" && '\n' !in "\"";
  }

  /** A comment line of the block is neither a marker nor an assignment. */
  lemma CommentLine(c: string)
    requires c != [] && c[0] == '#' && '>' !in c && '<' !in c
    ensures !IsMarkerLine(c) && ParseExport(c).None?
  {
    MarkerChars();
    MissingCharNotContained(c, MarkerBegin, '>');
    MissingCharNotContained(c, MarkerEnd, '<');
    NotExportLine(c);
  }

  /** A line without a carriage return keeps its end. */
  lemma NoCRKept(s: string)
    requires '\r' !in s
    ensures DropCR(s) == s
  {
    if s != [] {
      assert s[|s| - 1] in s;
    }
  }

  /** The marker lines are recognised as such. */
  lemma MarkersRecognised()
    ensures IsBeginLine(MarkerBegin) && IsEndLine(MarkerEnd)
  {
    ContainsSelf(MarkerBegin);
    ContainsSelf(MarkerEnd);
    MarkerChars();
    MissingCharNotContained(MarkerEnd, MarkerBegin, '>');
  }

  /** A blank line is neither a marker nor an assignment. */
  lemma BlankLine()
    ensures !IsMarkerLine("") && ParseExport("").None?
  {
    MarkerChars();
    MissingCharNotContained("", MarkerBegin, '>');
    MissingCharNotContained("", MarkerEnd, '<');
  }

  /** Inside the block the end marker stops the scan. */
  lemma ParseEndLine(acc: map<string, string>)
    ensures ParseLines([MarkerEnd], true, acc) == acc
  {
    MarkersRecognised();
  }

  /** The two comment lines of a block are neither markers nor assignments. */
  lemma CommentLines()
    ensures !IsMarkerLine(HeaderComment) && ParseExport(HeaderComment).None?
    ensures !IsMarkerLine(ManagedComment) && ParseExport(ManagedComment).None?
  {
    HeaderBland();
    ManagedBland();
    CommentLine(HeaderComment);
    CommentLine(ManagedComment);
  }

  /** The fixed lines hold no newline and no trailing carriage return. */
  lemma FixedLinesPlain()
    ensures '\n' !in MarkerBegin && DropCR(MarkerBegin) == MarkerBegin
    ensures '\n' !in MarkerEnd && DropCR(MarkerEnd) == MarkerEnd
    ensures '\n' !in HeaderComment && DropCR(HeaderComment) == HeaderComment
    ensures '\n' !in ManagedComment && DropCR(ManagedComment) == ManagedComment
  {
    MarkerChars();
    HeaderBland();
    ManagedBland();
    NoCRKept(MarkerBegin);
    NoCRKept(MarkerEnd);
    NoCRKept(HeaderComment);
    NoCRKept(ManagedComment);
  }

  /** Inside the block an export line sets its entry and parsing goes on. */
  lemma ParseExportStep(k: string, v: string, tail: seq<string>, acc: map<string, string>)
    requires Renderable(k, v)
    ensures ParseLines([ExportLine(k, v)] + tail, true, acc) == ParseLines(tail, true, acc[k := v])
  {
    ParseExportLine(k, v);
    assert ([ExportLine(k, v)] + tail)[1..] == tail;
  }

  /** Inside the block, the export lines of `order` add exactly those entries. */
  lemma {:induction false} ParseExports(vars: map<string, string>, order: seq<string>, rest: seq<string>, acc: map<string, string>)
    requires forall i :: 0 <= i < |order| ==> order[i] in vars && Renderable(order[i], vars[order[i]])
    ensures ParseLines(ExportLines(vars, order) + rest, true, acc) == ParseLines(rest, true, acc + Restrict(vars, order))
    decreases |order|
  {
    if order == [] {
      assert ExportLines(vars, order) + rest == rest;
      assert acc + Restrict(vars, order) == acc;
    } else {
      var k := order[0];
      var tail := ExportLines(vars, order[1..]) + rest;
      assert ExportLines(vars, order) + rest == [ExportLine(k, vars[k])] + tail;
      ParseExportStep(k, vars[k], tail, acc);
      ParseExports(vars, order[1..], rest, acc[k := vars[k]]);
      RestrictCons(acc, vars, order);
    }
  }

  lemma BlockHeadParts()
    ensures BlockHead == ["", MarkerBegin] + [HeaderComment, ManagedComment]
  {
  }

  /** Regroups the lines of a rewritten file as outside lines, begin line,
      body, end line and nothing after, the shape StripDropsRegion takes;
      used by RewriteAddsBlankLine. */
  lemma Regroup<T>(p: seq<T>, blank: T, begin: T, comments: seq<T>, ex: seq<T>, end: T)
    ensures p + ([blank, begin] + comments) + ex + [end] == (p + [blank]) + [begin] + (comments + ex) + [end] + []
  {
  }

  /** Regroups the lines of a written file as plain lines followed by the
      block, the shape ParseWritten reads. */
  lemma Reassoc<T>(p: seq<T>, head: seq<T>, ex: seq<T>, end: seq<T>)
    ensures p + head + ex + end == p + (head + (ex + end))
  {
  }

  /** The head of a block holds no newline and no trailing carriage return. */
  lemma BlockHeadPlain()
    ensures NoNewlines(BlockHead) && DropCRs(BlockHead) == BlockHead
  {
    FixedLinesPlain();
    assert DropCR("") == "";
  }

  /** So does the end marker line. */
  lemma EndLinePlain()
    ensures NoNewlines([MarkerEnd]) && DropCRs([MarkerEnd]) == [MarkerEnd]
  {
    FixedLinesPlain();
  }

  /** Export lines of renderable entries hold no newline, no trailing
      carriage return and no marker. */
  lemma ExportLinesPlain(vars: map<string, string>, order: seq<string>)
    requires forall i :: 0 <= i < |order| ==> order[i] in vars && Renderable(order[i], vars[order[i]])
    ensures var ex := ExportLines(vars, order);
      NoNewlines(ex) && DropCRs(ex) == ex && NoMarkerLines(ex)
  {
    var ex := ExportLines(vars, order);
    forall i | 0 <= i < |ex|
      ensures '\n' !in ex[i] && DropCR(ex[i]) == ex[i]
    {
      ParseExportLine(order[i], vars[order[i]]);
    }
  }

  /** Splits the block's tail into its end line and the final blank line,
      the shape ScanJoin gives back; used by ScanWritten. */
  lemma Closing<T>(p: seq<T>, h: seq<T>, ex: seq<T>, end: T, blank: T)
    ensures p + (h + ex + [end, blank]) == p + h + ex + [end] + [blank]
  {
  }

  /** Scanning joined lines made of four plain parts and a final blank
      line gives the parts back, with carriage returns dropped from the first. */
  lemma ScanParts(a: seq<string>, h: seq<string>, ex: seq<string>, e: seq<string>)
    requires NoNewlines(a) && NoNewlines(h) && NoNewlines(ex) && NoNewlines(e)
    requires DropCRs(h) == h && DropCRs(ex) == ex && DropCRs(e) == e && e != []
    ensures ScanLines(JoinLines(a + h + ex + e + [""])) == DropCRs(a) + h + ex + e
  {
    var kept := a + h + ex + e;
    NoNewlinesAppend(a, h);
    NoNewlinesAppend(a + h, ex);
    NoNewlinesAppend(a + h + ex, e);
    NoNewlinesAppend(kept, [""]);
    ScanJoin(kept + [""]);
    assert (kept + [""])[..|kept|] == kept;
    DropCRsAppend(a + h + ex, e);
    DropCRsAppend(a + h, ex);
    DropCRsAppend(a, h);
  }

  /** The lines scanned back from a freshly written file: the old outside
      lines (without trailing carriage returns), then the block; the blank
      line written last is not scanned back. */
  lemma ScanWritten(file: File, vars: map<string, string>, order: seq<string>)
    requires IsEnumeration(order, vars.Keys) && RenderableMap(vars)
    ensures ScanLines(JoinLines(WriteVarsLines(file, vars, order))) ==
      DropCRs(StripBlocks(FileLines(file), false)) + BlockHead + ExportLines(vars, order) + [MarkerEnd]
  {
    var stripped := StripBlocks(FileLines(file), false);
    var ex := ExportLines(vars, order);
    assert WriteVarsLines(file, vars, order) == stripped + RenderBlock(vars, order);
    Closing(stripped, BlockHead, ex, MarkerEnd, "");
    BlockHeadPlain();
    ExportLinesPlain(vars, order);
    EndLinePlain();
    assert NoNewlines(stripped) by {
      assert forall i :: 0 <= i < |stripped| ==> stripped[i] in FileLines(file);
    }
    ScanParts(stripped, BlockHead, ex, [MarkerEnd]);
  }

  /** Dropping carriage returns cannot create a marker. */
  lemma DropCRsNoMarkers(lines: seq<string>)
    requires NoMarkerLines(lines)
    ensures NoMarkerLines(DropCRs(lines))
  {
    forall i | 0 <= i < |lines|
      ensures !IsMarkerLine(DropCR(lines[i]))
    {
      var l := lines[i];
      if DropCR(l) != l {
        assert DropCR(l) == l[..|l| - 1];
        if Contains(DropCR(l), MarkerBegin) {
          ContainsInPrefix(l, |l| - 1, MarkerBegin);
        }
        if Contains(DropCR(l), MarkerEnd) {
          ContainsInPrefix(l, |l| - 1, MarkerEnd);
        }
      }
    }
  }

  /** A line that is neither a marker nor (inside the block) an assignment is skipped. */
  lemma ParseSkipLine(line: string, rest: seq<string>, inBlock: bool, acc: map<string, string>)
    requires !IsMarkerLine(line) && ParseExport(line).None?
    ensures ParseLines([line] + rest, inBlock, acc) == ParseLines(rest, inBlock, acc)
  {
    assert ([line] + rest)[1..] == rest;
  }

  /** The blank line and the begin marker open the block. */
  lemma ParseOpening(rest: seq<string>, acc: map<string, string>)
    ensures ParseLines(["", MarkerBegin] + rest, false, acc) == ParseLines(rest, true, acc)
  {
    BlankLine();
    MarkersRecognised();
    ParseSkipLine("", [MarkerBegin] + rest, false, acc);
    assert ["", MarkerBegin] + rest == [""] + ([MarkerBegin] + rest);
    assert ([MarkerBegin] + rest)[1..] == rest;
  }

  /** The two comments inside the block assign nothing. */
  lemma ParseComments(rest: seq<string>, acc: map<string, string>)
    ensures ParseLines([HeaderComment, ManagedComment] + rest, true, acc) == ParseLines(rest, true, acc)
  {
    CommentLines();
    assert [HeaderComment, ManagedComment] + rest == [HeaderComment] + ([ManagedComment] + rest);
    ParseSkipLine(HeaderComment, [ManagedComment] + rest, true, acc);
    ParseSkipLine(ManagedComment, rest, true, acc);
  }

  /** The head of a block opens it without assigning anything. */
  lemma ParseHead(rest: seq<string>, acc: map<string, string>)
    ensures ParseLines(BlockHead + rest, false, acc) == ParseLines(rest, true, acc)
  {
    assert BlockHead + rest == ["", MarkerBegin] + ([HeaderComment, ManagedComment] + rest);
    ParseOpening([HeaderComment, ManagedComment] + rest, acc);
    ParseComments(rest, acc);
  }

  /** Round trip: reading back the file just written yields exactly the
      written map, whatever the iteration order and whatever the file held
      before. */
  lemma ReadAfterWrite(file: File, vars: map<string, string>, order: seq<string>)
    requires IsEnumeration(order, vars.Keys) && RenderableMap(vars)
    ensures ReadVars(Some(WriteVars(file, vars, order))) == vars
  {
    var stripped := StripBlocks(FileLines(file), false);
    DropCRsNoMarkers(stripped);
    ParseWritten(DropCRs(stripped), vars, order);
  }

  /** Parsing plain lines followed by a rendered block yields the block's map. */
  lemma ParseWritten(plain: seq<string>, vars: map<string, string>, order: seq<string>)
    requires IsEnumeration(order, vars.Keys) && RenderableMap(vars)
    requires NoMarkerLines(plain)
    ensures ParseBlock(plain + BlockHead + ExportLines(vars, order) + [MarkerEnd]) == vars
  {
    var ex := ExportLines(vars, order);
    Reassoc(plain, BlockHead, ex, [MarkerEnd]);
    ParseSkipsPlain(plain, BlockHead + (ex + [MarkerEnd]), map[]);
    ParseHead(ex + [MarkerEnd], map[]);
    ParseExports(vars, order, [MarkerEnd], map[]);
    ParseEndLine(Restrict(vars, order));
    RestrictEnumeration(vars, order);
    EmptyUnion(vars);
  }

  lemma CommentsNoMarkers()
    ensures NoMarkerLines([HeaderComment, ManagedComment])
  {
    CommentLines();
  }

  lemma NoMarkerLinesAppend(a: seq<string>, b: seq<string>)
    requires NoMarkerLines(a) && NoMarkerLines(b)
    ensures NoMarkerLines(a + b)
  {
    forall i | 0 <= i < |a + b|
      ensures !IsMarkerLine((a + b)[i])
    {
      if i >= |a| {
        assert (a + b)[i] == b[i - |a|];
      }
    }
  }

  lemma NoMarkersNoEnds(lines: seq<string>)
    requires NoMarkerLines(lines)
    ensures NoEndLines(lines)
  {
  }

  /** The outside lines scanned back, with the blank line written after
      them, hold no marker. */
  lemma OutsideLines(stripped: seq<string>)
    requires NoMarkerLines(stripped)
    ensures NoMarkerLines(DropCRs(stripped) + [""])
  {
    DropCRsNoMarkers(stripped);
    BlankLine();
    NoMarkerLinesAppend(DropCRs(stripped), [""]);
  }

  /** The lines between the markers of a written block hold no marker. */
  lemma BlockBodyNoMarkers(vars: map<string, string>, order: seq<string>)
    requires forall i :: 0 <= i < |order| ==> order[i] in vars && Renderable(order[i], vars[order[i]])
    ensures NoMarkerLines([HeaderComment, ManagedComment] + ExportLines(vars, order))
  {
    CommentsNoMarkers();
    ExportLinesPlain(vars, order);
    NoMarkerLinesAppend([HeaderComment, ManagedComment], ExportLines(vars, order));
  }

  /** The only marked region of a freshly written file is the new block, and
      the lines outside it are the old outside lines plus the blank line
      written in front of the block. */
  lemma RewriteAddsBlankLine(file: File, vars: map<string, string>, order: seq<string>)
    requires IsEnumeration(order, vars.Keys) && RenderableMap(vars)
    ensures StripBlocks(ScanLines(WriteVars(file, vars, order)), false) ==
      DropCRs(StripBlocks(FileLines(file), false)) + [""]
  {
    var stripped := StripBlocks(FileLines(file), false);
    var plain := DropCRs(stripped) + [""];
    var ex := ExportLines(vars, order);
    var body := [HeaderComment, ManagedComment] + ex;
    OutsideLines(stripped);
    MarkersRecognised();
    BlockBodyNoMarkers(vars, order);
    NoMarkersNoEnds(body);
    BlockHeadParts();
    Regroup(DropCRs(stripped), "", MarkerBegin, [HeaderComment, ManagedComment], ex, MarkerEnd);
    StripDropsRegion(plain, MarkerBegin, body, MarkerEnd, []);
  }

  /** Rewriting is not idempotent: every rewrite keeps the blank line the
      previous one wrote in front of its block and adds another, so writing
      the same map twice never yields the same text twice. */
  lemma RewriteNotIdempotent(file: File, vars: map<string, string>, order: seq<string>)
    requires IsEnumeration(order, vars.Keys) && RenderableMap(vars)
    ensures var once := WriteVars(file, vars, order);
      WriteVars(Some(once), vars, order) != once
  {
    var once := WriteVars(file, vars, order);
    var twice := WriteVars(Some(once), vars, order);
    RewriteAddsBlankLine(file, vars, order);
    RewriteAddsBlankLine(Some(once), vars, order);
    assert |StripBlocks(ScanLines(twice), false)| == |StripBlocks(ScanLines(once), false)| + 1;
  }

  // ---------------------------------------------------------------------
  // Set and delete
  // ---------------------------------------------------------------------

  /** Setting one key: the block afterwards is the old block updated at
      that key; every other key keeps its value. */
  lemma SetVarUpdatesOneKey(file: File, key: string, value: string, order: seq<string>)
    requires IsEnumeration(order, ReadVars(file)[key := value].Keys)
    requires Renderable(key, value)
    ensures ReadVars(Some(SetVar(file, key, value, order))) == ReadVars(file)[key := value]
    ensures forall k :: k in ReadVars(file) && k != key ==>
      k in ReadVars(Some(SetVar(file, key, value, order))) &&
      ReadVars(Some(SetVar(file, key, value, order)))[k] == ReadVars(file)[k]
  {
    ReadAfterWrite(file, ReadVars(file)[key := value], order);
  }

  /** Deleting one key removes only that key. When nothing is left the
      whole block goes and no empty marker pair is written; a file that
      cannot be opened is left alone. */
  lemma DeleteVarRemovesOneKey(file: File, key: string, order: seq<string>)
    requires IsEnumeration(order, (ReadVars(file) - {key}).Keys)
    ensures ReadVars(Apply(file, DeleteVar(file, key, order))) == ReadVars(file) - {key}
    ensures |ReadVars(file) - {key}| == 0 ==> NoMarkerLines(FileLines(Apply(file, DeleteVar(file, key, order))))
    ensures file.None? ==> DeleteVar(file, key, order).Untouched?
  {
    var vars := ReadVars(file) - {key};
    if |vars| == 0 {
      match file
      case None =>
      case Some(t) =>
        RemoveBlockRescan(t);
        assert vars == map[];
    } else {
      ReadAfterWrite(file, vars, order);
    }
  }

  /** Deleting a key the block does not hold is not an error and leaves the
      block's contents as they were. */
  lemma DeleteAbsentKey(file: File, key: string, order: seq<string>)
    requires key !in ReadVars(file)
    requires IsEnumeration(order, ReadVars(file).Keys)
    ensures ReadVars(Apply(file, DeleteVar(file, key, order))) == ReadVars(file)
  {
    assert ReadVars(file) - {key} == ReadVars(file);
    DeleteVarRemovesOneKey(file, key, order);
  }

  /** What removeBlockFromProfile leaves, read line by line: the lines
      outside every marked region, each without one trailing carriage
      return, and without a final empty line. No marker line is left, so
      the block reads as empty. */
  lemma RemoveBlockRescan(t: string)
    ensures RemoveBlock(Some(t)).Rewrite?
    ensures var after := ScanLines(RemoveBlock(Some(t)).text);
      && after == DropCRs(DropFinalEmpty(StripBlocks(ScanLines(t), false)))
      && NoMarkerLines(after)
      && ReadVars(Some(RemoveBlock(Some(t)).text)) == map[]
  {
    var stripped := StripBlocks(ScanLines(t), false);
    assert forall i :: 0 <= i < |stripped| ==> '\n' !in stripped[i];
    ScanJoin(stripped);
    DropCRsNoMarkers(DropFinalEmpty(stripped));
    ParseWithoutBegin(ScanLines(JoinLines(stripped)), map[]);
  }

  /** A file holding one marked region loses exactly that region and its
      markers; the lines before and after it stay, in order. */
  lemma RemoveBlockDropsRegion(t: string, plain: seq<string>, begin: string, body: seq<string>, end: string, rest: seq<string>)
    requires ScanLines(t) == plain + [begin] + body + [end] + rest
    requires NoMarkerLines(plain) && IsBeginLine(begin) && NoEndLines(body) && IsEndLine(end) && NoMarkerLines(rest)
    ensures ScanLines(RemoveBlock(Some(t)).text) == DropCRs(DropFinalEmpty(plain + rest))
  {
    RemoveBlockRescan(t);
    StripDropsRegion(plain, begin, body, end, rest);
    StripKeepsPlain(rest, []);
    assert rest + [] == rest;
  }

  /** Removing the block just written gives back the old outside lines,
      each without one trailing carriage return, followed by the blank line
      that was written in front of the block. */
  lemma RemoveAfterWrite(file: File, vars: map<string, string>, order: seq<string>)
    requires IsEnumeration(order, vars.Keys) && RenderableMap(vars)
    ensures RemoveBlock(Some(WriteVars(file, vars, order)))
      == Rewrite(JoinLines(DropCRs(StripBlocks(FileLines(file), false)) + [""]))
  {
    RewriteAddsBlankLine(file, vars, order);
  }

  /** Deleting from a file that cannot be opened writes nothing and succeeds,
      whatever the write would have done. */
  lemma DeleteFromMissingFile(key: string, order: seq<string>, writeOk: bool)
    requires IsEnumeration(order, (ReadVars(None) - {key}).Keys)
    ensures Commit(None, DeleteVar(None, key, order), writeOk) == Ok(None)
  {
  }

  // ---------------------------------------------------------------------
  // Choice of the profile file (getProfilePath)
  // ---------------------------------------------------------------------

  datatype ProfileFile = Zshrc | BashProfile | Bashrc | FishConfig | PosixProfile {
    /** Path components below the home directory. */
    function RelativePath(): seq<string> {
      match this
      case Zshrc => [".zshrc"]
      case BashProfile => [".bash_profile"]
      case Bashrc => [".bashrc"]
      case FishConfig => [".config", "fish", "config.fish"]
      case PosixProfile => [".profile"]
    }
  }

  /** getProfilePath, given `$SHELL` and whether `~/.bash_profile` exists:
      zsh before bash before fish, `.profile` otherwise. */
  function ChooseProfile(shell: string, bashProfileExists: bool): (p: ProfileFile)
    ensures Contains(shell, "zsh") <==> p.Zshrc?
    ensures p.BashProfile? || p.Bashrc? <==> !Contains(shell, "zsh") && Contains(shell, "bash")
    ensures p.BashProfile? ==> bashProfileExists
    ensures p.Bashrc? ==> !bashProfileExists
    ensures p.FishConfig? <==> !Contains(shell, "zsh") && !Contains(shell, "bash") && Contains(shell, "fish")
  {
    if Contains(shell, "zsh") then Zshrc
    else if Contains(shell, "bash") then (if bashProfileExists then BashProfile else Bashrc)
    else if Contains(shell, "fish") then FishConfig
    else PosixProfile
  }

  /** The profile path is the home directory followed by the chosen file's components. */
  function ProfilePath(home: seq<string>, shell: string, bashProfileExists: bool): (path: seq<string>)
    ensures |path| > |home|
    ensures path[..|home|] == home
    ensures path[|home|..] == ChooseProfile(shell, bashProfileExists).RelativePath()
  {
    home + ChooseProfile(shell, bashProfileExists).RelativePath()
  }

  /** Different choices name different files, so each shell's settings
      live in a file of their own. */
  lemma ProfilePathsDiffer(home: seq<string>, shell1: string, exists1: bool, shell2: string, exists2: bool)
    requires ChooseProfile(shell1, exists1) != ChooseProfile(shell2, exists2)
    ensures ProfilePath(home, shell1, exists1) != ProfilePath(home, shell2, exists2)
  {
    RelativePathsDiffer(ChooseProfile(shell1, exists1), ChooseProfile(shell2, exists2));
  }

  /** The five files have different components below the home directory. */
  lemma RelativePathsDiffer(p: ProfileFile, q: ProfileFile)
    requires p != q
    ensures p.RelativePath() != q.RelativePath()
  {
    var a, b := p.RelativePath(), q.RelativePath();
    if |a| == 1 && |b| == 1 {
      assert |a[0]| != |b[0]|;
    }
  }
}
