/** One line of a verbose `mvn dependency:tree` report: its depth (`calculateDepth`), the
    text left once the tree glyphs are stripped, and the node it describes (`parseTreeLine`).

    A line is either `coords (annotations)` or, for an omitted dependency,
    `(coords - annotations)`; `coords` is `groupId:artifactId:type:version[:scope]`. */
module TreeLine {

  import opened Results
  import opened JavaString
  import opened DependencyNodes

  // ---------------------------------------------------------------------------------------
  // Depth

  /** Characters `calculateDepth` scans past: the space and the vertical bar. */
  predicate IndentChar(c: char) { c == ' ' || c == '|' }

  /** Branch glyphs: each ends the scan and counts one level. */
  predicate BranchChar(c: char) { c == '+' || c == '\\' || c == '-' }

  /** The length of the leading run of spaces and bars. */
  function LeadingIndent(s: string): (n: nat)
    ensures n <= |s|
  {
    if s == [] || !IndentChar(s[0]) then 0 else 1 + LeadingIndent(s[1..])
  }

  /** A run of indentation characters ended by another character or by the end of the
      line is the leading run. */
  lemma LeadingIndentAt(s: string, i: nat)
    requires i <= |s| && forall k :: 0 <= k < i ==> IndentChar(s[k])
    requires i == |s| || !IndentChar(s[i])
    ensures LeadingIndent(s) == i
  {
    LeadingIndentAppend(s[..i], s[i..]);
    assert s[..i] + s[i..] == s;
  }

  /** The depth of a line: one per bar in the leading run of spaces and bars, and one more
      when a branch glyph follows that run. Spaces count nothing. */
  function Depth(s: string): (d: nat)
    ensures d <= |s|
    ensures s == [] || (!IndentChar(s[0]) && !BranchChar(s[0])) ==> d == 0
  {
    var n := LeadingIndent(s);
    CountChar(s[..n], '|') + (if n < |s| && BranchChar(s[n]) then 1 else 0)
  }

  /** `calculateDepth(line)`. */
  method CalculateDepth(line: string) returns (depth: nat)
    ensures depth == Depth(line)
    ensures depth <= |line|
  {
    depth := 0;
    var i := 0;
    while i < |line|
      invariant 0 <= i <= |line|
      invariant forall k :: 0 <= k < i ==> IndentChar(line[k])
      invariant depth == CountChar(line[..i], '|')
    {
      var c := line[i];
      if c == '+' || c == '\\' || c == '-' {
        depth := depth + 1;
        break;
      } else if c == '|' {
        depth := depth + 1;
      } else if c != ' ' {
        break;
      }
      CountCharAppend(line[..i], [c], '|');
      assert line[..i + 1] == line[..i] + [c];
      i := i + 1;
    }
    LeadingIndentAt(line, i);
  }

  /** One indentation segment as Maven draws it: `|  ` under a non-last branch, three
      spaces under a last one. */
  predicate FillSegment(s: string) { s == "|  " || s == "   " }

  function Concat(ss: seq<string>): string {
    if ss == [] then [] else ss[0] + Concat(ss[1..])
  }

  function Bars(ss: seq<string>): nat {
    if ss == [] then 0 else (if ss[0] == "|  " then 1 else 0) + Bars(ss[1..])
  }

  lemma {:induction false} FillFacts(ss: seq<string>)
    requires forall i :: 0 <= i < |ss| ==> FillSegment(ss[i])
    ensures forall i :: 0 <= i < |Concat(ss)| ==> IndentChar(Concat(ss)[i])
    ensures CountChar(Concat(ss), '|') == Bars(ss)
  {
    if ss != [] {
      FillFacts(ss[1..]);
      CountCharAppend(ss[0], Concat(ss[1..]), '|');
      CountCharZero(ss[0], '|');
      CountCharZero(ss[0][1..], '|');
      assert CountChar(ss[0], '|') == if ss[0] == "|  " then 1 else 0;
    }
  }

  lemma {:induction false} LeadingIndentAppend(p: string, q: string)
    requires forall i :: 0 <= i < |p| ==> IndentChar(p[i])
    ensures LeadingIndent(p + q) == |p| + LeadingIndent(q)
  {
    if p != [] {
      assert (p + q)[1..] == p[1..] + q;
      LeadingIndentAppend(p[1..], q);
    } else {
      assert p + q == q;
    }
  }

  /** The scan stops at a branch glyph after an indentation run… */
  lemma IndentThenGlyph(ind: string, glyph: char, rest: string)
    requires forall i :: 0 <= i < |ind| ==> IndentChar(ind[i])
    requires BranchChar(glyph)
    ensures LeadingIndent(ind + ([glyph] + rest)) == |ind|
  {
    LeadingIndentAppend(ind, [glyph] + rest);
    assert LeadingIndent([glyph] + rest) == 0;
  }

  /** …and counts the run's bars plus one for the glyph. */
  lemma DepthAtGlyph(ind: string, glyph: char, rest: string)
    requires LeadingIndent(ind + ([glyph] + rest)) == |ind|
    requires BranchChar(glyph)
    ensures Depth(ind + ([glyph] + rest)) == CountChar(ind, '|') + 1
  {
    var s := ind + ([glyph] + rest);
    assert s[..|ind|] == ind;
    assert s[|ind|] == glyph;
  }

  /** A line drawn at nesting level `|segs| + 1` (the space after `[INFO]`, one fill segment
      per ancestor level, a branch glyph) gets depth one more than its number of `|  `
      segments: a segment of spaces, drawn under an ancestor's last branch, adds nothing. */
  lemma DrawnLineDepth(segs: seq<string>, glyph: char, rest: string)
    requires forall i :: 0 <= i < |segs| ==> FillSegment(segs[i])
    requires BranchChar(glyph)
    ensures Depth(" " + Concat(segs) + [glyph] + rest) == Bars(segs) + 1
  {
    var fill := Concat(segs);
    var ind := " " + fill;
    assert " " + Concat(segs) + [glyph] + rest == ind + ([glyph] + rest);
    FillFacts(segs);
    forall i | 0 <= i < |ind| ensures IndentChar(ind[i]) {
      if i > 0 {
        assert ind[i] == fill[i - 1];
      }
    }
    IndentThenGlyph(ind, glyph, rest);
    DepthAtGlyph(ind, glyph, rest);
    CountCharAppend(" ", fill, '|');
    assert CountChar(" ", '|') == 0;
  }

  /** Consequently the child of a last child is read at its parent's depth. */
  lemma LastBranchChildDepth(rest: string)
    ensures Depth(" \\- " + rest) == 1
    ensures Depth("    \\- " + rest) == 1
  {
    DrawnLineDepth([], '\\', "- " + rest);
    assert " " + Concat([]) + ['\\'] + ("- " + rest) == " \\- " + rest;
    DrawnLineDepth(["   "], '\\', "- " + rest);
    assert Concat(["   "]) == "   ";
    assert " " + Concat(["   "]) + ['\\'] + ("- " + rest) == "    \\- " + rest;
  }

  // ---------------------------------------------------------------------------------------
  // Cleaning

  /** The class `[\s|+\\-]`: Java's `\s` is space, tab, line feed, vertical tab, form feed
      and carriage return. */
  predicate TreeGlyph(c: char) {
    c == ' ' || c == '\t' || c == '\n' || c == '\U{000B}' || c == '\U{000C}' || c == '\r' ||
    c == '|' || c == '+' || c == '\\' || c == '-'
  }

  /** `replaceFirst("^[\\s|+\\\\-]+", "")`: drops the longest leading run of glyphs. */
  function StripTreePrefix(s: string): (r: string)
    ensures |r| <= |s|
  {
    if s != [] && TreeGlyph(s[0]) then StripTreePrefix(s[1..]) else s
  }

  /** What stripping drops is a run of glyphs, and what it keeps starts with no glyph. */
  lemma {:induction false} StripTreePrefixFacts(s: string)
    ensures StripTreePrefix(s) == s[|s| - |StripTreePrefix(s)|..]
    ensures forall i :: 0 <= i < |s| - |StripTreePrefix(s)| ==> TreeGlyph(s[i])
    ensures StripTreePrefix(s) == [] || !TreeGlyph(StripTreePrefix(s)[0])
  {
    if s != [] && TreeGlyph(s[0]) {
      StripTreePrefixFacts(s[1..]);
    }
  }

  /** The cleaned line: glyphs stripped, then trimmed. */
  function CleanLine(s: string): (r: string)
    ensures |r| <= |s|
  {
    Trim(StripTreePrefix(s))
  }

  // ---------------------------------------------------------------------------------------
  // Grammar

  datatype LineParts = LineParts(coords: string, annotations: string)

  /** Cuts a cleaned line into coordinates and annotation text. A line that starts with
      `(` and holds a `)` is `(coords - annotations)`: the content runs to the last `)`
      and is cut at its first ` - ` when that is not at index 0. Otherwise a ` (` after
      index 0 ends the coordinates, and the annotation runs to the last `)` when that comes
      later. Both parts are trimmed. */
  function SplitLine(line: string): (r: LineParts)
  {
    if StartsWith(line, "(") && ')' in line then
      var close := LastIndexOfChar(line, ')');
      assert line[..1][0] == line[0];
      var content := line[1..close];
      var dash := IndexOf(content, " - ");
      if dash > 0 then
        var coords := Trim(content[..dash]);
        var annotations := Trim(content[dash + 3..]);
        LineParts(coords, annotations)
      else
        LineParts(Trim(content), "")
    else
      var paren := IndexOf(line, " (");
      if paren > 0 then
        var close := LastIndexOfChar(line, ')');
        var coords := Trim(line[..paren]);
        if close > paren then
          assert line[paren..paren + 2][1] == line[paren + 1];
          var annotations := Trim(line[paren + 2..close]);
          LineParts(coords, annotations)
        else
          LineParts(coords, "")
      else
        LineParts(Trim(line), "")
  }

  /** A coordinate or annotation word: non-empty, without blanks or control characters,
      colons or parentheses. */
  predicate Word(s: string) {
    s != [] && forall i :: 0 <= i < |s| ==> s[i] > ' ' && s[i] != ':' && s[i] != '(' && s[i] != ')'
  }

  /** Text without blanks or control characters, as `Join` of words is. */
  predicate Unspaced(s: string) {
    forall i :: 0 <= i < |s| ==> s[i] > ' '
  }

  lemma TrimUnspaced(s: string)
    requires s != [] && Unspaced(s)
    ensures Trim(s) == s
  {
    TrimFixed(s);
  }

  lemma {:induction false} JoinWords(ps: seq<string>)
    requires |ps| >= 1 && forall i :: 0 <= i < |ps| ==> Word(ps[i])
    ensures Unspaced(Join(ps, ':')) && Join(ps, ':') != []
    ensures ps[0] != [] && Join(ps, ':')[0] == ps[0][0]
    ensures '(' !in Join(ps, ':') && ')' !in Join(ps, ':')
  {
    if |ps| > 1 {
      JoinWords(ps[1..]);
    }
  }

  /** A blank-led marker does not occur in text without blanks. */
  lemma NoBlankMarker(s: string, t: string)
    requires Unspaced(s) && t != [] && t[0] == ' '
    ensures IndexOf(s, t) == -1
  {
    forall k | 0 <= k ensures !MatchAt(s, t, k) {
      if k + |t| <= |s| {
        assert s[k..k + |t|][0] == s[k];
      }
    }
  }

  /** The first place of a blank-led marker in `s + t` is where `t` starts, when `s` has
      no blanks. */
  lemma IndexAfterUnspaced(s: string, t: string, u: string)
    requires Unspaced(s) && t != [] && t[0] == ' '
    ensures IndexOf(s + t + u, t) == |s|
  {
    var line := s + t + u;
    assert MatchAt(line, t, |s|) by {
      assert line[|s|..|s| + |t|] == t;
    }
    forall k | 0 <= k < |s| ensures !MatchAt(line, t, k) {
      assert line[k] == s[k];
      if k + |t| <= |line| {
        assert line[k..k + |t|][0] == line[k];
      }
    }
    IndexOfFirst(line, t);
  }

  /** `coords` alone splits into itself and no annotation. */
  lemma SplitPlain(coords: string)
    requires coords != [] && Unspaced(coords) && coords[0] != '('
    ensures SplitLine(coords) == LineParts(coords, "")
  {
    assert coords[..1][0] == coords[0];
    NoBlankMarker(coords, " (");
    TrimUnspaced(coords);
  }

  /** `coords (annotations)` splits back into `coords` and the trimmed annotations. */
  lemma SplitAnnotated(coords: string, annotations: string)
    requires coords != [] && Unspaced(coords) && coords[0] != '(' && ')' !in annotations
    ensures SplitLine(coords + " (" + annotations + ")") == LineParts(coords, Trim(annotations))
  {
    var line := coords + " (" + annotations + ")";
    assert line[..1][0] == line[0] == coords[0];
    IndexAfterUnspaced(coords, " (", annotations + ")");
    assert line == coords + " (" + (annotations + ")");
    var paren := |coords|;
    assert IndexOf(line, " (") == paren;
    var close := LastIndexOfChar(line, ')');
    assert line[|line| - 1] == ')';
    assert close == |line| - 1;
    assert line[..paren] == coords;
    assert line[paren + 2..close] == annotations;
    TrimUnspaced(coords);
  }

  /** `(coords - annotations)` splits back into `coords` and the trimmed annotations. */
  lemma SplitOmitted(coords: string, annotations: string)
    requires coords != [] && Unspaced(coords) && ')' !in coords && ')' !in annotations
    ensures SplitLine("(" + coords + " - " + annotations + ")") == LineParts(coords, Trim(annotations))
  {
    var line := "(" + coords + " - " + annotations + ")";
    assert StartsWith(line, "(");
    assert line[|line| - 1] == ')';
    var close := LastIndexOfChar(line, ')');
    assert close == |line| - 1;
    var content := line[1..close];
    assert content == coords + " - " + annotations;
    IndexAfterUnspaced(coords, " - ", annotations);
    assert content[..|coords|] == coords;
    assert content[|coords| + 3..] == annotations;
    TrimUnspaced(coords);
  }

  // ---------------------------------------------------------------------------------------
  // Interpretation

  /** `notes` with `note` appended, joined by `"; "`. */
  function AppendNote(notes: Option<string>, note: string): (r: Option<string>)
    ensures r.Some? && EndsWith(r.value, note)
    ensures notes.Some? ==> StartsWith(r.value, notes.value + "; ")
    ensures notes.None? ==> r == Some(note)
  {
    var r := if notes.Some? then notes.value + "; " + note else note;
    assert r[|r| - |note|..] == note;
    assert notes.Some? ==> r[..|notes.value + "; "|] == notes.value + "; ";
    Some(r)
  }

  predicate EndsWith(s: string, t: string) {
    |t| <= |s| && s[|s| - |t|..] == t
  }

  /** The fields the annotation checks leave alone. */
  predicate SameShape(n: DependencyNode, m: DependencyNode) {
    m.groupId == n.groupId && m.artifactId == n.artifactId && m.version == n.version &&
    m.scope == n.scope && m.artifactType == n.artifactType &&
    m.children == n.children && m.parent == n.parent
  }

  /** An annotation mentioning `optional` marks the node optional. */
  function WithOptional(n: DependencyNode, annotations: string): (r: DependencyNode)
    ensures SameShape(n, r) && r.omitted == n.omitted && r.omittedReason == n.omittedReason && r.notes == n.notes
    ensures r.optional <==> n.optional || Contains(annotations, "optional")
  {
    if Contains(annotations, "optional") then n.(optional := true) else n
  }

  /** An annotation mentioning `omitted for` marks the node omitted; the trimmed text after
      `omitted for `, up to the next `;`, becomes the reason (without that prefix). */
  function WithOmission(n: DependencyNode, annotations: string): (r: DependencyNode)
    ensures SameShape(n, r) && r.optional == n.optional && r.notes == n.notes
    ensures r.omitted <==> n.omitted || Contains(annotations, "omitted for")
    ensures r.omittedReason != n.omittedReason ==> r.omitted
  {
    if Contains(annotations, "omitted for") then
      match FindGroup(annotations, "omitted for ")
      case Some(reason) => n.(omitted := true, omittedReason := Some(Trim(reason)))
      case None => n.(omitted := true)
    else n
  }

  /** `version managed from X` becomes a note unless the notes already hold it. */
  function WithVersionNote(n: DependencyNode, annotations: string): (r: DependencyNode)
    ensures SameShape(n, r) && r.optional == n.optional && r.omitted == n.omitted && r.omittedReason == n.omittedReason
  {
    if Contains(annotations, "version managed from") then
      match FindGroup(annotations, "version managed from ")
      case Some(x) =>
        var note := "version managed from " + Trim(x);
        if n.notes.Some? && !Contains(n.notes.value, note) then n.(notes := AppendNote(n.notes, note))
        else if n.notes.None? then n.(notes := Some(note))
        else n
      case None => n
    else n
  }

  /** `scope managed from Y` is always appended as a note. */
  function WithScopeNote(n: DependencyNode, annotations: string): (r: DependencyNode)
    ensures SameShape(n, r) && r.optional == n.optional && r.omitted == n.omitted && r.omittedReason == n.omittedReason
  {
    if Contains(annotations, "scope managed from") then
      match FindGroup(annotations, "scope managed from ")
      case Some(y) => n.(notes := AppendNote(n.notes, "scope managed from " + Trim(y)))
      case None => n
    else n
  }

  /** The annotation checks in the order the parser makes them; an empty annotation changes
      nothing. */
  function Annotate(n: DependencyNode, annotations: string): (r: DependencyNode)
    ensures SameShape(n, r)
  {
    if annotations == [] then n
    else WithScopeNote(WithVersionNote(WithOmission(WithOptional(n, annotations), annotations), annotations), annotations)
  }

  /** The node `parseTreeLine` builds from the two parts of a line. */
  function Interpret(p: LineParts): (n: DependencyNode)
    ensures n.children == [] && n.parent.None? && n.artifactType.None?
    ensures n.ColonFree()
  {
    var parts := JavaSplit(p.coords, ':');
    if |parts| < 3 then NewNode("unknown", "unknown", "unknown")
    else
      var version := if |parts| > 3 then parts[3] else "unknown";
      var scope := if |parts| > 4 then parts[4] else "compile";
      Annotate(NewNode(parts[0], parts[1], version).(scope := Some(scope)), p.annotations)
  }

  /** The node `parseTreeLine(line)` returns. */
  function LineNode(line: string): (n: DependencyNode)
    ensures n.children == [] && n.parent.None? && n.artifactType.None?
    ensures n.ColonFree()
  {
    Interpret(SplitLine(line))
  }

  // Properties of the interpretation.

  /** Flags and notes: `optional` iff the annotation is non-empty and mentions `optional`,
      `omitted` iff it mentions `omitted for`, a reason only on an omitted node; an empty
      annotation leaves every flag clear and no reason or note. A line with fewer than three
      coordinate fields gives the placeholder node. */
  lemma LineNodeFlags(line: string)
    ensures var p := SplitLine(line);
      var n := LineNode(line);
      if |JavaSplit(p.coords, ':')| < 3 then n == NewNode("unknown", "unknown", "unknown")
      else
        && (n.optional <==> p.annotations != [] && Contains(p.annotations, "optional"))
        && (n.omitted <==> p.annotations != [] && Contains(p.annotations, "omitted for"))
        && (n.omittedReason.Some? ==> n.omitted)
        && (p.annotations == [] ==> n.notes.None? && n.omittedReason.None?)
        && n.scope.Some?
  {
  }

  /** On a node without notes, the version note becomes the only note. */
  lemma VersionNoteFirst(n: DependencyNode, annotations: string)
    requires n.notes.None?
    ensures var v := FindGroup(annotations, "version managed from ");
      WithVersionNote(n, annotations).notes ==
        if v.Some? then Some("version managed from " + Trim(v.value)) else None
  {
    assert "version managed from" + " " == "version managed from ";
    FindGroupContains(annotations, "version managed from");
  }

  /** The scope note is appended whenever its marker is followed by text. */
  lemma ScopeNoteStep(n: DependencyNode, annotations: string)
    ensures var s := FindGroup(annotations, "scope managed from ");
      WithScopeNote(n, annotations).notes ==
        if s.Some? then AppendNote(n.notes, "scope managed from " + Trim(s.value)) else n.notes
  {
    assert "scope managed from" + " " == "scope managed from ";
    FindGroupContains(annotations, "scope managed from");
  }

  /** The notes a parsed line carries: the version note, then the scope note appended to
      it, each present when its marker is followed by text. */
  lemma LineNodeNotes(n: DependencyNode, annotations: string)
    requires n.notes.None? && annotations != []
    ensures var v := FindGroup(annotations, "version managed from ");
      var s := FindGroup(annotations, "scope managed from ");
      var versionNote := if v.Some? then Some("version managed from " + Trim(v.value)) else None;
      Annotate(n, annotations).notes ==
        if s.Some? then AppendNote(versionNote, "scope managed from " + Trim(s.value)) else versionNote
  {
    var m1 := WithOmission(WithOptional(n, annotations), annotations);
    VersionNoteFirst(m1, annotations);
    ScopeNoteStep(WithVersionNote(m1, annotations), annotations);
  }

  /** `p([^;]+)` finds a match only where `p` itself (without its trailing space) occurs. */
  lemma FindGroupContains(s: string, p: string)
    ensures FindGroup(s, p + " ").Some? ==> Contains(s, p)
  {
    var k := GroupStartFrom(s, p + " ", 0);
    if k >= 0 {
      assert s[k..k + |p|] == (p + " ")[..|p|];
      assert MatchAt(s, p, k);
      ContainsMatch(s, p);
    }
  }

  /** The version note is recorded once: adding it again changes nothing. */
  lemma VersionNoteIdempotent(n: DependencyNode, annotations: string)
    ensures WithVersionNote(WithVersionNote(n, annotations), annotations) == WithVersionNote(n, annotations)
  {
    if Contains(annotations, "version managed from") {
      match FindGroup(annotations, "version managed from ")
      case Some(x) =>
        var note := "version managed from " + Trim(x);
        var m := WithVersionNote(n, annotations);
        assert m.notes.Some?;
        assert Contains(m.notes.value, note) by {
          ContainsMatch(m.notes.value, note);
          if n.notes.Some? && !Contains(n.notes.value, note) {
            var r := m.notes.value;
            assert MatchAt(r, note, |r| - |note|);
          } else if n.notes.None? {
            assert MatchAt(note, note, 0);
          }
        }
      case None =>
    }
  }

  /** The scope note is not de-duplicated: adding it again appends a second copy. */
  lemma ScopeNoteRepeats(n: DependencyNode, annotations: string)
    requires FindGroup(annotations, "scope managed from ").Some?
    ensures var note := "scope managed from " + Trim(FindGroup(annotations, "scope managed from ").value);
      WithScopeNote(WithScopeNote(n, annotations), annotations).notes ==
        AppendNote(AppendNote(n.notes, note), note)
  {
    ScopeNoteStep(n, annotations);
    ScopeNoteStep(WithScopeNote(n, annotations), annotations);
  }

  /** An omission annotation gives back its reason, stored without the `omitted for` prefix. */
  lemma OmissionReasonRoundTrip(n: DependencyNode, reason: string)
    requires reason != [] && ';' !in reason && Trim(reason) == reason
    ensures WithOmission(n, "omitted for " + reason).omitted
    ensures WithOmission(n, "omitted for " + reason).omittedReason == Some(reason)
  {
    var s := "omitted for " + reason;
    assert MatchAt(s, "omitted for", 0);
    assert GroupAt(s, "omitted for ", 0) by {
      assert s[..12] == "omitted for ";
      assert s[12] == reason[0];
    }
    assert GroupStartFrom(s, "omitted for ", 0) == 0;
    assert s[12..] == reason;
  }

  /** A coordinate field of a parsed line belongs to the split coordinates. */
  lemma InterpretJoined(ps: seq<string>, annotations: string)
    requires 3 <= |ps| <= 5 && forall i :: 0 <= i < |ps| ==> Word(ps[i])
    ensures var n := Interpret(LineParts(Join(ps, ':'), annotations));
      n.groupId == ps[0] && n.artifactId == ps[1] &&
      n.version == (if |ps| > 3 then ps[3] else "unknown") &&
      n.scope == Some(if |ps| > 4 then ps[4] else "compile")
  {
    SplitOfJoin(ps, ':');
  }

  /** `groupId:artifactId:type:version:scope` with no annotation gives a node with exactly
      those coordinates and scope and no flags; the type is not kept. */
  lemma PlainLineRoundTrip(ps: seq<string>)
    requires 3 <= |ps| <= 5 && forall i :: 0 <= i < |ps| ==> Word(ps[i])
    ensures LineNode(Join(ps, ':')) == CoordinatesNode(ps)
  {
    JoinWords(ps);
    SplitPlain(Join(ps, ':'));
    SplitOfJoin(ps, ':');
  }

  /** The annotation `optional` sets the flag and nothing else. */
  lemma AnnotateOptional(n: DependencyNode)
    ensures Annotate(n, "optional") == n.(optional := true)
  {
    var ann := "optional";
    assert MatchAt(ann, "optional", 0);
    assert !Contains(ann, "omitted for");
    assert !Contains(ann, "version managed from");
    assert !Contains(ann, "scope managed from");
  }

  /** The node a well-formed coordinate list describes before its annotations are read. */
  function CoordinatesNode(ps: seq<string>): DependencyNode
    requires |ps| >= 3
  {
    NewNode(ps[0], ps[1], if |ps| > 3 then ps[3] else "unknown")
      .(scope := Some(if |ps| > 4 then ps[4] else "compile"))
  }

  /** Coordinates joined by `':'` are read back as the node they describe. */
  lemma InterpretCoordinates(ps: seq<string>, annotations: string)
    requires 3 <= |ps| <= 5 && forall i :: 0 <= i < |ps| ==> Word(ps[i])
    ensures Interpret(LineParts(Join(ps, ':'), annotations)) == Annotate(CoordinatesNode(ps), annotations)
  {
    SplitOfJoin(ps, ':');
  }

  /** `coords (annotations)` gives the coordinates' node with those annotations read. */
  lemma AnnotatedLineRoundTrip(ps: seq<string>, annotations: string)
    requires 3 <= |ps| <= 5 && forall i :: 0 <= i < |ps| ==> Word(ps[i])
    requires annotations != [] && Unspaced(annotations) && ')' !in annotations
    ensures LineNode(Join(ps, ':') + " (" + annotations + ")") == Annotate(CoordinatesNode(ps), annotations)
  {
    JoinWords(ps);
    SplitAnnotated(Join(ps, ':'), annotations);
    TrimUnspaced(annotations);
    InterpretCoordinates(ps, annotations);
  }

  /** `(coords - annotations)` gives the coordinates' node with the trimmed annotations
      read. */
  lemma OmittedLineRoundTrip(ps: seq<string>, annotations: string)
    requires 3 <= |ps| <= 5 && forall i :: 0 <= i < |ps| ==> Word(ps[i])
    requires ')' !in annotations
    ensures LineNode("(" + Join(ps, ':') + " - " + annotations + ")") ==
      Annotate(CoordinatesNode(ps), Trim(annotations))
  {
    JoinWords(ps);
    SplitOmitted(Join(ps, ':'), annotations);
    InterpretCoordinates(ps, Trim(annotations));
  }

  /** The annotation `omitted for reason` marks the node omitted with that reason, whatever
      else the reason mentions. */
  lemma AnnotateOmission(n: DependencyNode, reason: string)
    requires reason != [] && ';' !in reason && Trim(reason) == reason
    ensures Annotate(n, "omitted for " + reason).omitted
    ensures Annotate(n, "omitted for " + reason).omittedReason == Some(reason)
  {
    OmissionReasonRoundTrip(WithOptional(n, "omitted for " + reason), reason);
  }

  // ---------------------------------------------------------------------------------------
  // The parser's own construction

  /** `parseTreeLine(line, depth)`: builds a new node through the constructor and setters.
      The depth argument is unused by the source and is not modelled. */
  method ParseTreeLine(tree: DependencyTree, line: string) returns (id: nat)
    modifies tree
    ensures id == |old(tree.nodes)|
    ensures tree.nodes == old(tree.nodes) + [LineNode(line)]
    ensures old(tree.Valid()) ==> tree.Valid()
    ensures old(InCreationOrder(tree.nodes)) ==> InCreationOrder(tree.nodes)
  {
    var p := SplitLine(line);
    id := AddParts(tree, p);
  }

  /** The node construction of `parseTreeLine`, once the line is split: the coordinate
      fields through the constructor and `setScope`, the annotation checks through the
      setters. */
  method AddParts(tree: DependencyTree, p: LineParts) returns (id: nat)
    modifies tree
    ensures id == |old(tree.nodes)|
    ensures tree.nodes == old(tree.nodes) + [Interpret(p)]
    ensures old(tree.Valid()) ==> tree.Valid()
    ensures old(InCreationOrder(tree.nodes)) ==> InCreationOrder(tree.nodes)
  {
    InterpretParts(p);
    var parts := JavaSplit(p.coords, ':');
    if |parts| < 3 {
      id := tree.New("unknown", "unknown", "unknown");
      return;
    }
    ghost var ns := tree.nodes;
    var groupId := parts[0];
    var artifactId := parts[1];
    var version := if |parts| > 3 then parts[3] else "unknown";
    var scope := if |parts| > 4 then parts[4] else "compile";
    id := tree.New(groupId, artifactId, version);
    tree.SetScope(id, Some(scope));
    UpdateAppended(ns, NewNode(groupId, artifactId, version), CoordinatesNode(parts));
    var annotations := p.annotations;
    if annotations != [] {
      ApplyAnnotations(tree, id, annotations);
      UpdateAppended(ns, CoordinatesNode(parts), Interpret(p));
    }
  }

  /** The node `Interpret` builds from the coordinate fields, before and after the
      annotations are read. */
  lemma InterpretParts(p: LineParts)
    ensures var parts := JavaSplit(p.coords, ':');
      if |parts| < 3 then Interpret(p) == NewNode("unknown", "unknown", "unknown")
      else Interpret(p) == Annotate(CoordinatesNode(parts), p.annotations)
  {
  }

  lemma UpdateAppended(ns: seq<DependencyNode>, n: DependencyNode, m: DependencyNode)
    ensures (ns + [n])[|ns| := m] == ns + [m]
  {
  }

  /** The four annotation checks of `parseTreeLine`, in order, on the node at `id`. */
  method ApplyAnnotations(tree: DependencyTree, id: nat, annotations: string)
    requires id < |tree.nodes| && annotations != []
    modifies tree
    ensures tree.nodes == old(tree.nodes)[id := Annotate(old(tree.nodes[id]), annotations)]
    ensures old(tree.Valid()) ==> tree.Valid()
    ensures old(InCreationOrder(tree.nodes)) ==> InCreationOrder(tree.nodes)
  {
    ghost var ns := tree.nodes;
    ghost var n1 := WithOptional(ns[id], annotations);
    ghost var n2 := WithOmission(n1, annotations);
    ghost var n3 := WithVersionNote(n2, annotations);
    ApplyOptional(tree, id, annotations);
    ApplyOmission(tree, id, annotations);
    UpdateTwice(ns, id, n1, n2);
    ApplyVersionNote(tree, id, annotations);
    UpdateTwice(ns, id, n2, n3);
    ApplyScopeNote(tree, id, annotations);
    UpdateTwice(ns, id, n3, WithScopeNote(n3, annotations));
  }

  lemma UpdateTwice(ns: seq<DependencyNode>, id: nat, n: DependencyNode, m: DependencyNode)
    requires id < |ns|
    ensures ns[id := n][id := m] == ns[id := m]
  {
  }

  /** The `optional` check of `parseTreeLine`, on the node the tree holds at `id`. */
  method ApplyOptional(tree: DependencyTree, id: nat, annotations: string)
    requires id < |tree.nodes|
    modifies tree
    ensures tree.nodes == old(tree.nodes)[id := WithOptional(old(tree.nodes[id]), annotations)]
    ensures old(tree.Valid()) ==> tree.Valid()
    ensures old(InCreationOrder(tree.nodes)) ==> InCreationOrder(tree.nodes)
  {
    if Contains(annotations, "optional") {
      tree.SetOptional(id, true);
    }
  }

  /** The `omitted for` check of `parseTreeLine`. */
  method ApplyOmission(tree: DependencyTree, id: nat, annotations: string)
    requires id < |tree.nodes|
    modifies tree
    ensures tree.nodes == old(tree.nodes)[id := WithOmission(old(tree.nodes[id]), annotations)]
    ensures old(tree.Valid()) ==> tree.Valid()
    ensures old(InCreationOrder(tree.nodes)) ==> InCreationOrder(tree.nodes)
  {
    if Contains(annotations, "omitted for") {
      tree.SetOmitted(id, true);
      var reason := FindGroup(annotations, "omitted for ");
      if reason.Some? {
        tree.SetOmittedReason(id, Some(Trim(reason.value)));
      }
    }
  }

  /** The `version managed from` check of `parseTreeLine`. */
  method ApplyVersionNote(tree: DependencyTree, id: nat, annotations: string)
    requires id < |tree.nodes|
    modifies tree
    ensures tree.nodes == old(tree.nodes)[id := WithVersionNote(old(tree.nodes[id]), annotations)]
    ensures old(tree.Valid()) ==> tree.Valid()
    ensures old(InCreationOrder(tree.nodes)) ==> InCreationOrder(tree.nodes)
  {
    if Contains(annotations, "version managed from") {
      var managed := FindGroup(annotations, "version managed from ");
      if managed.Some? {
        var note := "version managed from " + Trim(managed.value);
        var notes := tree.nodes[id].notes;
        if notes.Some? && !Contains(notes.value, note) {
          tree.SetNotes(id, Some(notes.value + "; " + note));
        } else if notes.None? {
          tree.SetNotes(id, Some(note));
        }
      }
    }
  }

  /** The `scope managed from` check of `parseTreeLine`. */
  method ApplyScopeNote(tree: DependencyTree, id: nat, annotations: string)
    requires id < |tree.nodes|
    modifies tree
    ensures tree.nodes == old(tree.nodes)[id := WithScopeNote(old(tree.nodes[id]), annotations)]
    ensures old(tree.Valid()) ==> tree.Valid()
    ensures old(InCreationOrder(tree.nodes)) ==> InCreationOrder(tree.nodes)
  {
    if Contains(annotations, "scope managed from") {
      var managed := FindGroup(annotations, "scope managed from ");
      if managed.Some? {
        var note := "scope managed from " + Trim(managed.value);
        var notes := tree.nodes[id].notes;
        if notes.Some? {
          tree.SetNotes(id, Some(notes.value + "; " + note));
        } else {
          tree.SetNotes(id, Some(note));
        }
      }
    }
  }
}
