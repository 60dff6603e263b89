/** `parseMavenTreeOutput`: the whole report into a tree.

    The report is split into lines. The root is the first `[INFO]` line with a packaging
    marker and at least three colons after the `]`. Every later line is skipped, ends the
    scan, or contributes one entry: its depth and its cleaned text. The entries become nodes
    in order; a stack of open nodes and their depths decides each node's parent. */
module TreeParser {

  import opened Results
  import opened JavaString
  import opened DependencyNodes
  import opened TreeLine

  // ---------------------------------------------------------------------------------------
  // The root line

  /** The characters Java's `.` does not match: the line terminators of `java.util.regex`. */
  predicate LineTerminator(c: char) {
    c == '\n' || c == '\r' || c == '\U{0085}' || c == '\U{2028}' || c == '\U{2029}'
  }

  /** `s.matches(".*:.*:.*:.*")`: the whole string, free of line terminators, holds at
      least three colons. */
  predicate RootPattern(s: string) {
    CountChar(s, ':') >= 3 && forall i :: 0 <= i < |s| ==> !LineTerminator(s[i])
  }

  /** `line.substring(line.indexOf("]") + 1).trim()`: the whole line, trimmed, when it
      holds no `]`. */
  function AfterBracket(line: string): string {
    Trim(line[IndexOfChar(line, ']') + 1..])
  }

  /** A line the root search accepts. */
  predicate RootLine(line: string) {
    (Contains(line, ":jar:") || Contains(line, ":war:") || Contains(line, ":pom:")) &&
    StartsWith(Trim(line), "[INFO]") && !Contains(line, "---") &&
    RootPattern(AfterBracket(line))
  }

  /** The first of `lines` from `i` on that `accept` holds for, or -1. */
  function FirstMatch(lines: seq<string>, accept: string -> bool, i: nat): (r: int)
    requires i <= |lines|
    ensures r == -1 || i <= r < |lines|
    ensures r >= 0 ==> accept(lines[r])
    ensures forall j :: i <= j < |lines| && (r == -1 || j < r) ==> !accept(lines[j])
    decreases |lines| - i
  {
    if i == |lines| then -1 else if accept(lines[i]) then i else FirstMatch(lines, accept, i + 1)
  }

  /** The index of the root line, or -1 when the report has none. */
  function RootIndex(lines: seq<string>): int {
    FirstMatch(lines, RootLine, 0)
  }

  /** `RootIndex` is the first root line, and -1 exactly when no line is one. */
  lemma RootIndexFacts(lines: seq<string>)
    ensures -1 <= RootIndex(lines) < |lines|
    ensures RootIndex(lines) >= 0 ==>
      RootLine(lines[RootIndex(lines)]) && forall j :: 0 <= j < RootIndex(lines) ==> !RootLine(lines[j])
    ensures RootIndex(lines) == -1 <==> forall j :: 0 <= j < |lines| ==> !RootLine(lines[j])
  {
  }

  /** The search loop of `parseMavenTreeOutput`: the first root line, or -1. */
  method FindRoot(lines: seq<string>) returns (start: int)
    ensures start == RootIndex(lines)
  {
    start := -1;
    var i := 0;
    while i < |lines|
      invariant 0 <= i <= |lines|
      invariant FirstMatch(lines, RootLine, i) == RootIndex(lines)
    {
      var line := lines[i];
      if Contains(line, ":jar:") || Contains(line, ":war:") || Contains(line, ":pom:") {
        if !StartsWith(Trim(line), "[INFO]") || Contains(line, "---") {
          i := i + 1;
          continue;
        }
        var cleaned := Trim(line[IndexOfChar(line, ']') + 1..]);
        if RootPattern(cleaned) {
          start := i;
          return;
        }
      }
      i := i + 1;
    }
  }

  // ---------------------------------------------------------------------------------------
  // The lines after the root

  /** A dependency line: its depth and its cleaned text. */
  datatype Entry = Entry(depth: nat, text: string)

  /** What the scan does with one line. */
  datatype Scan = Skip | Stop | Keep(entry: Entry)

  /** A line lacking `[INFO]` or `:` is skipped; of the rest, one holding `---` or `BUILD`
      ends the scan; a line whose cleaned text is empty or has no `:` is skipped. */
  function ScanLine(line: string): (r: Scan)
    ensures r.Stop? <==>
      Contains(line, "[INFO]") && Contains(line, ":") && (Contains(line, "---") || Contains(line, "BUILD"))
    ensures r.Keep? ==>
      r.entry.text != [] && Contains(r.entry.text, ":") && ']' in line &&
      r.entry.depth <= |line|
  {
    if !Contains(line, "[INFO]") || !Contains(line, ":") then Skip
    else if Contains(line, "---") || Contains(line, "BUILD") then Stop
    else
      var infoEnd := IndexOfChar(line, ']');
      if infoEnd == -1 then Skip
      else
        IndexOfCharFacts(line, ']');
        var depLine := line[infoEnd + 1..];
        var cleaned := CleanLine(depLine);
        if cleaned == [] || !Contains(cleaned, ":") then Skip
        else Keep(Entry(Depth(depLine), cleaned))
  }

  /** The entries of the lines from `i` on, up to the line that ends the scan. */
  function Entries(lines: seq<string>, i: nat): (r: seq<Entry>)
    ensures |r| <= |lines| - i || r == []
    ensures forall k :: 0 <= k < |r| ==> r[k].text != [] && Contains(r[k].text, ":")
    decreases |lines| - i
  {
    if i >= |lines| then []
    else match ScanLine(lines[i])
      case Skip => Entries(lines, i + 1)
      case Stop => []
      case Keep(e) => [e] + Entries(lines, i + 1)
  }

  // ---------------------------------------------------------------------------------------
  // Where each entry hangs

  /** The depths of the nodes in creation order: the root at 0, then the entries'. */
  function Levels(es: seq<Entry>): (d: seq<nat>)
    ensures |d| == |es| + 1 && d[0] == 0
    ensures forall k :: 1 <= k < |d| ==> d[k] == es[k - 1].depth
  {
    [0] + seq(|es|, k requires 0 <= k < |es| => es[k].depth)
  }

  /** No entry up to `k` has depth 0: the stack has not emptied yet. */
  predicate Attached(d: seq<nat>, k: nat)
    requires k < |d|
  {
    forall q :: 1 <= q <= k ==> d[q] > 0
  }

  /** The last node before `j` that is shallower than node `k`. */
  function Nearest(d: seq<nat>, k: nat, j: nat): (r: Option<nat>)
    requires k < |d| && j <= k
    ensures r.Some? ==> r.value < j && d[r.value] < d[k] && forall q :: r.value < q < j ==> d[q] >= d[k]
    ensures r.None? ==> forall q :: 0 <= q < j ==> d[q] >= d[k]
    decreases j
  {
    if j == 0 then None else if d[j - 1] < d[k] then Some(j - 1) else Nearest(d, k, j - 1)
  }

  /** The parent of node `k`: the nearest shallower earlier node while the stack has not
      emptied, none for the root and for every node from the first depth-0 entry on. */
  function ParentOf(d: seq<nat>, k: nat): (r: Option<nat>)
    requires k < |d|
    ensures r.Some? ==> r.value < k
  {
    if k > 0 && Attached(d, k) then Nearest(d, k, k) else None
  }

  /** The nearest shallower node is unique. */
  lemma {:induction false} NearestUnique(d: seq<nat>, k: nat, j: nat, p: nat)
    requires k < |d| && p < j <= k && d[p] < d[k]
    requires forall q :: p < q < j ==> d[q] >= d[k]
    ensures Nearest(d, k, j) == Some(p)
    decreases j
  {
    if j - 1 != p {
      NearestUnique(d, k, j - 1, p);
    }
  }

  /** An attached node below the root has a parent: an earlier node, shallower than it, with
      nothing shallower between them. */
  lemma ParentOfFacts(d: seq<nat>, k: nat)
    requires d != [] && d[0] == 0 && 0 < k < |d| && Attached(d, k)
    ensures ParentOf(d, k).Some?
    ensures var p := ParentOf(d, k).value;
      p < k && d[p] < d[k] && (forall q :: p < q < k ==> d[q] >= d[k]) && Attached(d, p)
  {
    assert d[0] < d[k];
  }

  /** When every entry is at most one level deeper than the entry before it, as Maven draws
      its trees, a node hangs exactly one level below its parent. */
  lemma ParentOneLevelUp(d: seq<nat>, k: nat)
    requires d != [] && d[0] == 0 && 0 < k < |d| && Attached(d, k)
    requires forall q :: 0 < q < |d| ==> d[q] <= d[q - 1] + 1
    ensures ParentOf(d, k).Some? && d[ParentOf(d, k).value] == d[k] - 1
  {
    ParentOfFacts(d, k);
    var p := ParentOf(d, k).value;
    if p + 1 < k {
      assert d[p + 1] >= d[k];
    }
  }

  /** The number of ancestors of node `k` under `ParentOf`. */
  function AncestorCount(d: seq<nat>, k: nat): nat
    requires k < |d|
    decreases k
  {
    match ParentOf(d, k)
    case None => 0
    case Some(p) => 1 + AncestorCount(d, p)
  }

  /** When every entry is at most one level deeper than the one before it, a node placed
      before the stack first empties has exactly as many ancestors as its depth. */
  lemma {:induction false} AncestorsMatchDepth(d: seq<nat>, k: nat)
    requires d != [] && d[0] == 0 && k < |d| && Attached(d, k)
    requires forall q :: 0 < q < |d| ==> d[q] <= d[q - 1] + 1
    ensures AncestorCount(d, k) == d[k]
    decreases k
  {
    if k > 0 {
      ParentOneLevelUp(d, k);
      ParentOfFacts(d, k);
      AncestorsMatchDepth(d, ParentOf(d, k).value);
    }
  }

  /** Later entries do not change where earlier nodes hang. */
  lemma ParentOfExtend(d: seq<nat>, x: nat, k: nat)
    requires d != [] && d[0] == 0 && k < |d|
    ensures ParentOf(d + [x], k) == ParentOf(d, k)
  {
    var e := d + [x];
    assert forall q :: 0 <= q < |d| ==> e[q] == d[q];
    assert Attached(e, k) == Attached(d, k);
    if k > 0 && Attached(d, k) {
      ParentOfFacts(d, k);
      NearestUnique(e, k, k, ParentOf(d, k).value);
    }
  }

  // ---------------------------------------------------------------------------------------
  // The stacks

  /** The two stacks after node |d| - 1: equal lengths, the depth stack holding the
      depths of the nodes on the node stack, both strictly increasing, the root at the
      bottom and the newest node on top, empty exactly once a depth-0 entry has come, and
      every node after a stacked one at least as deep as the stacked node above it. */
  ghost predicate Spine(d: seq<nat>, nodeStack: seq<nat>, depthStack: seq<nat>) {
    && d != []
    && StackCells(d, nodeStack, depthStack)
    && Rising(nodeStack) && Rising(depthStack)
    && (|nodeStack| > 0 ==> nodeStack[0] == 0 && nodeStack[|nodeStack| - 1] == |d| - 1)
    && (|nodeStack| > 0 <==> Attached(d, |d| - 1))
    && Covers(d, nodeStack, depthStack)
  }

  predicate StackCells(d: seq<nat>, nodeStack: seq<nat>, depthStack: seq<nat>) {
    |nodeStack| == |depthStack| &&
    forall s :: 0 <= s < |nodeStack| ==> nodeStack[s] < |d| && depthStack[s] == d[nodeStack[s]]
  }

  predicate Rising(xs: seq<nat>) {
    forall s, u :: 0 <= s < u < |xs| ==> xs[s] < xs[u]
  }

  ghost predicate Covers(d: seq<nat>, nodeStack: seq<nat>, depthStack: seq<nat>)
    requires |nodeStack| == |depthStack|
  {
    forall s, u, q :: 0 <= s < u < |nodeStack| && u == s + 1 && nodeStack[s] < q < |d| ==> d[q] >= depthStack[u]
  }

  /** Cutting a strictly increasing sequence and pushing a larger value keeps it so. */
  lemma RisingPush(xs: seq<nat>, t: nat, x: nat)
    requires Rising(xs) && 0 < t <= |xs| && xs[t - 1] < x
    ensures Rising(xs[..t] + [x])
  {
    var ys := xs[..t] + [x];
    forall s, u | 0 <= s < u < |ys| ensures ys[s] < ys[u] {
      if u == t {
        assert xs[s] <= xs[t - 1];
      } else {
        assert ys[s] == xs[s] && ys[u] == xs[u];
      }
    }
  }

  lemma CoversPush(d: seq<nat>, nodeStack: seq<nat>, depthStack: seq<nat>, x: nat, t: nat)
    requires |nodeStack| == |depthStack| && Rising(depthStack) && Covers(d, nodeStack, depthStack)
    requires 0 < t <= |nodeStack|
    requires forall s :: t <= s < |nodeStack| ==> depthStack[s] >= x
    requires depthStack[t - 1] < x
    requires t == |nodeStack| ==> nodeStack[t - 1] == |d| - 1
    ensures Covers(d + [x], nodeStack[..t] + [|d|], depthStack[..t] + [x])
  {
    var e := d + [x];
    var ns := nodeStack[..t] + [|d|];
    var ds := depthStack[..t] + [x];
    forall s, q | 0 <= s < |ns| - 1 && ns[s] < q < |e| ensures e[q] >= ds[s + 1] {
      assert ns[s] == nodeStack[s];
      if q == |d| {
        assert e[q] == x;
        if s + 1 < t {
          assert depthStack[s + 1] <= depthStack[t - 1];
        }
      } else {
        assert e[q] == d[q];
        if s + 1 == t {
          assert t < |nodeStack|;
          assert d[q] >= depthStack[t];
        } else {
          assert ds[s + 1] == depthStack[s + 1];
        }
      }
    }
  }

  /** Popping to the last stacked node shallower than the new node, and pushing the new
      node: that node becomes its parent and the stacks keep their shape. */
  lemma SpineKeep(d: seq<nat>, nodeStack: seq<nat>, depthStack: seq<nat>, x: nat, t: nat)
    requires Spine(d, nodeStack, depthStack) && d[0] == 0
    requires 0 < t <= |nodeStack|
    requires forall s :: t <= s < |nodeStack| ==> depthStack[s] >= x
    requires depthStack[t - 1] < x
    ensures ParentOf(d + [x], |d|) == Some(nodeStack[t - 1])
    ensures Spine(d + [x], nodeStack[..t] + [|d|], depthStack[..t] + [x])
  {
    SpineParent(d, nodeStack, depthStack, x, t);
    SpinePush(d, nodeStack, depthStack, x, t);
  }

  lemma SpineParent(d: seq<nat>, nodeStack: seq<nat>, depthStack: seq<nat>, x: nat, t: nat)
    requires Spine(d, nodeStack, depthStack) && d[0] == 0
    requires 0 < t <= |nodeStack|
    requires forall s :: t <= s < |nodeStack| ==> depthStack[s] >= x
    requires depthStack[t - 1] < x
    ensures ParentOf(d + [x], |d|) == Some(nodeStack[t - 1])
  {
    var e := d + [x];
    var p := nodeStack[t - 1];
    assert forall q :: 0 <= q < |d| ==> e[q] == d[q];
    assert Attached(e, |d|);
    forall q | p < q < |d| ensures e[q] >= e[|d|] {
      assert t < |nodeStack|;
      assert d[q] >= depthStack[t];
    }
    NearestUnique(e, |d|, |d|, p);
  }

  lemma SpinePush(d: seq<nat>, nodeStack: seq<nat>, depthStack: seq<nat>, x: nat, t: nat)
    requires Spine(d, nodeStack, depthStack) && d[0] == 0
    requires 0 < t <= |nodeStack|
    requires forall s :: t <= s < |nodeStack| ==> depthStack[s] >= x
    requires depthStack[t - 1] < x
    ensures Spine(d + [x], nodeStack[..t] + [|d|], depthStack[..t] + [x])
  {
    var e := d + [x];
    var ns := nodeStack[..t] + [|d|];
    var ds := depthStack[..t] + [x];
    assert forall q :: 0 <= q < |d| ==> e[q] == d[q];
    assert Attached(e, |e| - 1);
    assert StackCells(e, ns, ds) by {
      forall s | 0 <= s < |ns| ensures ns[s] < |e| && ds[s] == e[ns[s]] {
        if s < t {
          assert ns[s] == nodeStack[s] && ds[s] == depthStack[s];
        }
      }
    }
    RisingPush(nodeStack, t, |d|);
    RisingPush(depthStack, t, x);
    CoversPush(d, nodeStack, depthStack, x, t);
  }

  /** Popping every node: the new node hangs nowhere and the stacks stay empty. */
  lemma SpineEmpty(d: seq<nat>, nodeStack: seq<nat>, depthStack: seq<nat>, x: nat)
    requires Spine(d, nodeStack, depthStack) && d[0] == 0
    requires forall s :: 0 <= s < |nodeStack| ==> depthStack[s] >= x
    ensures ParentOf(d + [x], |d|) == None
    ensures Spine(d + [x], [], [])
  {
    var e := d + [x];
    assert forall q :: 0 <= q < |d| ==> e[q] == d[q];
    if |nodeStack| > 0 {
      assert e[|d|] == 0;
    } else {
      assert !Attached(d, |d| - 1);
      var q :| 1 <= q <= |d| - 1 && d[q] == 0;
      assert e[q] == 0;
    }
    assert !Attached(e, |d|);
  }

  // ---------------------------------------------------------------------------------------
  // The tree built

  /** A node without its links. */
  function Unlinked(n: DependencyNode): (r: DependencyNode)
    ensures r.children == [] && r.parent.None?
  {
    n.(children := [], parent := None)
  }

  /** The nodes of an arena without their links. */
  function UnlinkAll(ns: seq<DependencyNode>): (r: seq<DependencyNode>)
    ensures |r| == |ns| && forall k :: 0 <= k < |ns| ==> r[k] == Unlinked(ns[k])
  {
    seq(|ns|, k requires 0 <= k < |ns| => Unlinked(ns[k]))
  }

  /** The parent references of an arena. */
  function Parents(ns: seq<DependencyNode>): (r: seq<Option<nat>>)
    ensures |r| == |ns| && forall k :: 0 <= k < |ns| ==> r[k] == ns[k].parent
  {
    seq(|ns|, k requires 0 <= k < |ns| => ns[k].parent)
  }

  /** The texts the nodes are parsed from: the root's, then the entries'. */
  function Texts(rootText: string, es: seq<Entry>): (r: seq<string>)
    ensures |r| == |es| + 1 && r[0] == rootText
    ensures forall k :: 1 <= k < |r| ==> r[k] == es[k - 1].text
  {
    [rootText] + seq(|es|, k requires 0 <= k < |es| => es[k].text)
  }

  /** `parseTreeLine` of each text. */
  function Built(texts: seq<string>): (r: seq<DependencyNode>)
    ensures |r| == |texts|
  {
    if texts == [] then [] else Built(texts[..|texts| - 1]) + [LineNode(texts[|texts| - 1])]
  }

  lemma {:induction false} BuiltIndex(texts: seq<string>, k: nat)
    requires k < |texts|
    ensures Built(texts)[k] == LineNode(texts[k])
  {
    if k < |texts| - 1 {
      BuiltIndex(texts[..|texts| - 1], k);
    }
  }

  /** Where each node hangs. */
  function Placement(d: seq<nat>): (r: seq<Option<nat>>)
    ensures |r| == |d| && forall k :: 0 <= k < |d| ==> r[k] == ParentOf(d, k)
  {
    seq(|d|, k requires 0 <= k < |d| => ParentOf(d, k))
  }

  lemma PlacementExtend(d: seq<nat>, x: nat)
    requires d != [] && d[0] == 0
    ensures Placement(d + [x]) == Placement(d) + [ParentOf(d + [x], |d|)]
  {
    forall k | 0 <= k < |d| ensures Placement(d + [x])[k] == Placement(d)[k] {
      ParentOfExtend(d, x, k);
    }
  }

  /** The arena holds `parseTreeLine` of the root text and then of each entry's text, each
      node linked to the parent `ParentOf` gives it. */
  predicate Assembled(ns: seq<DependencyNode>, rootText: string, es: seq<Entry>) {
    UnlinkAll(ns) == Built(Texts(rootText, es)) && Parents(ns) == Placement(Levels(es))
  }

  /** What an assembled arena holds, node by node. */
  lemma AssembledNodes(ns: seq<DependencyNode>, rootText: string, es: seq<Entry>)
    requires Assembled(ns, rootText, es)
    ensures |ns| == |es| + 1
    ensures Unlinked(ns[0]) == LineNode(rootText)
    ensures forall k :: 1 <= k < |ns| ==> Unlinked(ns[k]) == LineNode(es[k - 1].text)
    ensures forall k :: 0 <= k < |ns| ==> ns[k].parent == ParentOf(Levels(es), k)
  {
    var texts := Texts(rootText, es);
    assert |UnlinkAll(ns)| == |ns|;
    forall k | 0 <= k < |ns| ensures Unlinked(ns[k]) == LineNode(texts[k]) {
      BuiltIndex(texts, k);
      assert UnlinkAll(ns)[k] == Unlinked(ns[k]);
    }
    forall k | 0 <= k < |ns| ensures ns[k].parent == ParentOf(Levels(es), k) {
      assert Parents(ns)[k] == ns[k].parent;
    }
  }

  /** The number of ancestors of node `x` in an arena, following the parent references. */
  function Ancestry(ns: seq<DependencyNode>, x: nat): nat
    decreases x
  {
    if x < |ns| && ns[x].parent.Some? && ns[x].parent.value < x then 1 + Ancestry(ns, ns[x].parent.value)
    else 0
  }

  lemma {:induction false} AncestryIsCount(ns: seq<DependencyNode>, d: seq<nat>, k: nat)
    requires |ns| == |d| && k < |d|
    requires forall x :: 0 <= x < |ns| ==> ns[x].parent == ParentOf(d, x)
    ensures Ancestry(ns, k) == AncestorCount(d, k)
    decreases k
  {
    if ParentOf(d, k).Some? {
      AncestryIsCount(ns, d, ParentOf(d, k).value);
    }
  }

  /** Depth consistency of a parsed tree: when each line is drawn at most one level deeper
      than the line before it, every node placed before the stack first empties has as
      many ancestors in the tree as the depth read from its line (0 for the root). */
  lemma ParsedDepthConsistency(ns: seq<DependencyNode>, rootText: string, es: seq<Entry>, k: nat)
    requires Assembled(ns, rootText, es) && k <= |es| && Attached(Levels(es), k)
    requires forall q :: 0 < q < |Levels(es)| ==> Levels(es)[q] <= Levels(es)[q - 1] + 1
    ensures k < |ns| && Ancestry(ns, k) == Levels(es)[k]
  {
    AssembledNodes(ns, rootText, es);
    AncestryIsCount(ns, Levels(es), k);
    AncestorsMatchDepth(Levels(es), k);
  }

  /** In an assembled, linked arena the children of a node are exactly the nodes
      `ParentOf` hangs below it. */
  lemma AssembledChildren(ns: seq<DependencyNode>, rootText: string, es: seq<Entry>, x: nat, c: nat)
    requires Assembled(ns, rootText, es) && Linked(ns) && x < |ns| && c < |ns|
    ensures c in ns[x].children <==> ParentOf(Levels(es), c) == Some(x)
  {
    AssembledNodes(ns, rootText, es);
    if c in ns[x].children {
      var k :| 0 <= k < |ns[x].children| && ns[x].children[k] == c;
    }
  }

  /** The newest node comes last among its parent's children: `addChild` appends, and an
      arena in creation order lists children by index. */
  lemma NewestIsLastChild(ns: seq<DependencyNode>, p: nat)
    requires Linked(ns) && InCreationOrder(ns) && ns != [] && ns[|ns| - 1].parent == Some(p)
    ensures p < |ns| - 1 && ns[p].children != []
    ensures ns[p].children[|ns[p].children| - 1] == |ns| - 1
  {
    var cs := ns[p].children;
    assert |ns| - 1 in cs;
    var k :| 0 <= k < |cs| && cs[k] == |ns| - 1;
    assert cs[|cs| - 1] < |ns|;
  }

  /** Once the stack has emptied (an entry at depth 0), that node and every later one hang
      nowhere and get no children: the rest of the report is dropped without an error. */
  lemma DetachedAfterEmpty(ns: seq<DependencyNode>, rootText: string, es: seq<Entry>, j: nat, k: nat)
    requires Assembled(ns, rootText, es) && Linked(ns)
    requires 0 < j <= k < |ns| && Levels(es)[j] == 0
    ensures !Attached(Levels(es), k)
    ensures ns[k].parent.None? && ns[k].children == []
  {
    AssembledNodes(ns, rootText, es);
    forall c | 0 <= c < |ns| ensures c !in ns[k].children {
      AssembledChildren(ns, rootText, es, k, c);
    }
    ChildListNone(ns, k);
  }

  /** A report whose root line is followed by entries at depths 1, 2 and 1: the root gets
      two children, the first of which has one child. */
  lemma SamplePlacement(ns: seq<DependencyNode>, rootText: string, es: seq<Entry>)
    requires Assembled(ns, rootText, es) && Linked(ns) && InCreationOrder(ns)
    requires Levels(es) == [0, 1, 2, 1]
    ensures |ns| == 4
    ensures ns[0].children == [1, 3] && ns[1].children == [2]
    ensures ns[2].children == [] && ns[3].children == []
    ensures ns[0].parent.None? && ns[1].parent == Some(0) && ns[2].parent == Some(1) && ns[3].parent == Some(0)
  {
    var d := Levels(es);
    AssembledNodes(ns, rootText, es);
    SampleParents(d);
    SampleChildren(ns, rootText, es, 0);
    SampleChildren(ns, rootText, es, 1);
    SampleChildren(ns, rootText, es, 2);
    SampleChildren(ns, rootText, es, 3);
  }

  /** Where the nodes drawn at depths 0, 1, 2 and 1 hang, node by node and parent by
      parent. */
  lemma SampleParents(d: seq<nat>)
    requires d == [0, 1, 2, 1]
    ensures ParentOf(d, 0).None? && ParentOf(d, 1) == Some(0)
    ensures ParentOf(d, 2) == Some(1) && ParentOf(d, 3) == Some(0)
    ensures forall c :: 0 <= c < 4 ==> (ParentOf(d, c) == Some(0) <==> c == 1 || c == 3)
    ensures forall c :: 0 <= c < 4 ==> (ParentOf(d, c) == Some(1) <==> c == 2)
    ensures forall c :: 0 <= c < 4 ==> ParentOf(d, c) != Some(2) && ParentOf(d, c) != Some(3)
  {
    assert Nearest(d, 1, 0).None?;
    assert Nearest(d, 3, 2) == Some(0);
  }

  /** The child list of each node of a report whose entries have depths 1, 2, 1. */
  lemma SampleChildren(ns: seq<DependencyNode>, rootText: string, es: seq<Entry>, x: nat)
    requires Assembled(ns, rootText, es) && Linked(ns) && InCreationOrder(ns)
    requires Levels(es) == [0, 1, 2, 1] && x < 4
    ensures |ns| == 4
    ensures x == 0 ==> ns[x].children == [1, 3]
    ensures x == 1 ==> ns[x].children == [2]
    ensures x >= 2 ==> ns[x].children == []
  {
    AssembledNodes(ns, rootText, es);
    SampleParents(Levels(es));
    ChildrenByParent(ns, rootText, es, x);
    if x == 0 {
      ChildListOf(ns[x].children, 1, 3, 4);
    } else if x == 1 {
      ChildListOne(ns[x].children, 2, 4);
    } else {
      ChildListNone(ns, x);
    }
  }

  /** The children of node `x` in an assembled, linked arena, for every index. */
  lemma ChildrenByParent(ns: seq<DependencyNode>, rootText: string, es: seq<Entry>, x: nat)
    requires Assembled(ns, rootText, es) && Linked(ns) && x < |ns|
    ensures forall c :: 0 <= c < |ns| ==> (c in ns[x].children <==> ParentOf(Levels(es), c) == Some(x))
  {
    forall c | 0 <= c < |ns| ensures c in ns[x].children <==> ParentOf(Levels(es), c) == Some(x) {
      AssembledChildren(ns, rootText, es, x, c);
    }
  }

  /** An increasing list of indices below `n` holding exactly `a` and `b`, in that order. */
  lemma ChildListOf(cs: seq<nat>, a: nat, b: nat, n: nat)
    requires a < b < n
    requires forall c :: c < n ==> (c in cs <==> c == a || c == b)
    requires forall c :: c in cs ==> c < n
    requires forall k, l :: 0 <= k < l < |cs| ==> cs[k] < cs[l]
    ensures cs == [a, b]
  {
    assert a in cs && b in cs;
    forall k | 0 <= k < |cs| ensures cs[k] == a || cs[k] == b {
      assert cs[k] in cs;
    }
    var i :| 0 <= i < |cs| && cs[i] == a;
    var j :| 0 <= j < |cs| && cs[j] == b;
    assert cs[0] == a;
    assert cs[|cs| - 1] == b;
    assert cs[1] == b;
  }

  lemma ChildListOne(cs: seq<nat>, a: nat, n: nat)
    requires a < n
    requires forall c :: c < n ==> (c in cs <==> c == a)
    requires forall c :: c in cs ==> c < n
    requires forall k, l :: 0 <= k < l < |cs| ==> cs[k] < cs[l]
    ensures cs == [a]
  {
    assert a in cs;
    forall k | 0 <= k < |cs| ensures cs[k] == a {
      assert cs[k] in cs;
    }
    FirstTwo(cs);
  }

  /** A node of a linked arena that is nobody's parent has no children. */
  lemma ChildListNone(ns: seq<DependencyNode>, x: nat)
    requires Linked(ns) && x < |ns|
    requires forall c :: 0 <= c < |ns| ==> c !in ns[x].children
    ensures ns[x].children == []
  {
    FirstTwo(ns[x].children);
  }

  lemma FirstTwo(cs: seq<nat>)
    ensures |cs| > 0 ==> cs[0] in cs
    ensures |cs| > 1 ==> cs[1] in cs
  {
  }

  /** In a linked arena whose last node has no parent, every child comes before it. */
  lemma ChildrenBeforeLast(ns: seq<DependencyNode>, i: nat)
    requires Linked(ns) && i < |ns| && ns[|ns| - 1].parent.None?
    ensures forall c :: c in ns[i].children ==> c < |ns| - 1
  {
    forall c | c in ns[i].children ensures c < |ns| - 1 {
      var k :| 0 <= k < |ns[i].children| && ns[i].children[k] == c;
      assert ns[c].parent == Some(i);
    }
  }

  /** The popping loop: drops the top of both stacks while the depth on top is at least
      `depth`. */
  method PopShallower(nodeStack: seq<nat>, depthStack: seq<nat>, depth: nat) returns (nodeStack': seq<nat>, depthStack': seq<nat>)
    requires |nodeStack| == |depthStack|
    ensures |nodeStack'| == |depthStack'| <= |depthStack|
    ensures nodeStack' == nodeStack[..|nodeStack'|] && depthStack' == depthStack[..|depthStack'|]
    ensures forall s :: |depthStack'| <= s < |depthStack| ==> depthStack[s] >= depth
    ensures |depthStack'| > 0 ==> depthStack'[|depthStack'| - 1] < depth
  {
    nodeStack', depthStack' := nodeStack, depthStack;
    while |depthStack'| > 0 && depthStack'[|depthStack'| - 1] >= depth
      invariant |nodeStack'| == |depthStack'| <= |depthStack|
      invariant nodeStack' == nodeStack[..|nodeStack'|] && depthStack' == depthStack[..|depthStack'|]
      invariant forall s :: |depthStack'| <= s < |depthStack| ==> depthStack[s] >= depth
    {
      nodeStack' := nodeStack'[..|nodeStack'| - 1];
      depthStack' := depthStack'[..|depthStack'| - 1];
    }
  }

  /** Pops the stacks to the parent of the newest node and, if one is left, adopts the node
      and pushes it; `t` is the height the popping stops at. */
  method PlaceNode(tree: DependencyTree, nodeStack: seq<nat>, depthStack: seq<nat>, node: nat, depth: nat)
    returns (nodeStack': seq<nat>, depthStack': seq<nat>, ghost t: nat)
    requires node + 1 == |tree.nodes| && |nodeStack| == |depthStack|
    requires forall s :: 0 <= s < |nodeStack| ==> nodeStack[s] < node
    requires tree.Valid() && InCreationOrder(tree.nodes)
    requires tree.nodes[node].parent.None?
    modifies tree
    ensures t <= |nodeStack|
    ensures forall s :: t <= s < |nodeStack| ==> depthStack[s] >= depth
    ensures t > 0 ==> depthStack[t - 1] < depth
    ensures t > 0 ==>
      nodeStack' == nodeStack[..t] + [node] && depthStack' == depthStack[..t] + [depth] &&
      UnlinkAll(tree.nodes) == UnlinkAll(old(tree.nodes)) &&
      Parents(tree.nodes) == Parents(old(tree.nodes))[..node] + [Some(nodeStack[t - 1])]
    ensures t == 0 ==> nodeStack' == [] && depthStack' == [] && tree.nodes == old(tree.nodes)
    ensures tree.Valid() && InCreationOrder(tree.nodes)
  {
    nodeStack', depthStack' := PopShallower(nodeStack, depthStack, depth);
    t := |nodeStack'|;
    if |nodeStack'| > 0 {
      var top := nodeStack'[|nodeStack'| - 1];
      assert top == nodeStack[t - 1];
      AdoptLast(tree, top);
      nodeStack' := nodeStack' + [node];
      depthStack' := depthStack' + [depth];
    }
  }

  lemma ParentsLast(ns: seq<DependencyNode>)
    requires ns != []
    ensures Parents(ns) == Parents(ns)[..|ns| - 1] + [ns[|ns| - 1].parent]
  {
  }

  /** Where popping `t` entries leaves the new node, and the stacks then. */
  lemma StackStep(d: seq<nat>, nodeStack: seq<nat>, depthStack: seq<nat>, x: nat, t: nat)
    requires Spine(d, nodeStack, depthStack) && d[0] == 0
    requires t <= |nodeStack|
    requires forall s :: t <= s < |nodeStack| ==> depthStack[s] >= x
    requires t > 0 ==> depthStack[t - 1] < x
    ensures t > 0 ==>
      nodeStack[t - 1] < |d| && ParentOf(d + [x], |d|) == Some(nodeStack[t - 1]) &&
      Spine(d + [x], nodeStack[..t] + [|d|], depthStack[..t] + [x])
    ensures t == 0 ==> ParentOf(d + [x], |d|) == None && Spine(d + [x], [], [])
  {
    if t > 0 {
      SpineKeep(d, nodeStack, depthStack, x, t);
    } else {
      SpineEmpty(d, nodeStack, depthStack, x);
    }
  }

  /** `addChild` of the newest, parentless node to an earlier node `top`. */
  method AdoptLast(tree: DependencyTree, top: nat)
    requires 0 <= top < |tree.nodes| - 1
    requires tree.Valid() && InCreationOrder(tree.nodes)
    requires tree.nodes[|tree.nodes| - 1].parent.None?
    modifies tree
    ensures |tree.nodes| == |old(tree.nodes)|
    ensures UnlinkAll(tree.nodes) == UnlinkAll(old(tree.nodes))
    ensures Parents(tree.nodes) == Parents(old(tree.nodes))[..|tree.nodes| - 1] + [Some(top)]
    ensures tree.Valid() && InCreationOrder(tree.nodes)
  {
    var node := |tree.nodes| - 1;
    ChildrenBeforeLast(tree.nodes, top);
    ghost var before := tree.nodes;
    tree.AddChild(top, node);
    AdoptedLinks(before, tree.nodes, top);
  }

  /** After the newest node is adopted by `top`, only links differ, and only the newest
      node's parent among the parent references. */
  lemma AdoptedLinks(before: seq<DependencyNode>, after: seq<DependencyNode>, top: nat)
    requires top < |before| - 1 && |after| == |before|
    requires after[top] == before[top].(children := before[top].children + [|before| - 1])
    requires after[|before| - 1] == before[|before| - 1].(parent := Some(top))
    requires forall x :: 0 <= x < |after| && x != top && x != |before| - 1 ==> after[x] == before[x]
    ensures UnlinkAll(after) == UnlinkAll(before)
    ensures Parents(after) == Parents(before)[..|before| - 1] + [Some(top)]
  {
    var node := |before| - 1;
    forall k | 0 <= k < |after| ensures Unlinked(after[k]) == Unlinked(before[k]) {
      if k == top {
        assert after[k] == before[k].(children := before[k].children + [node]);
      } else if k == node {
        assert after[k] == before[k].(parent := Some(top));
      }
    }
    assert UnlinkAll(after) == UnlinkAll(before);
    assert Parents(after) == Parents(before)[..node] + [Some(top)];
  }

  /** One more entry, its node appended and placed, keeps the arena assembled. */
  lemma AssembledStep(prev: seq<DependencyNode>, built: seq<DependencyNode>, ns: seq<DependencyNode>, rootText: string, es: seq<Entry>, e: Entry)
    requires Assembled(prev, rootText, es)
    requires built == prev + [LineNode(e.text)]
    requires UnlinkAll(ns) == UnlinkAll(built)
    requires Parents(ns) == Parents(built)[..|prev|] + [ParentOf(Levels(es) + [e.depth], |prev|)]
    ensures Assembled(ns, rootText, es + [e])
  {
    TextsAppend(rootText, es, e);
    BuiltAppend(Texts(rootText, es), e.text);
    UnlinkAllAppend(prev, LineNode(e.text));
    assert Parents(built)[..|prev|] == Parents(prev);
    LevelsAppend(es, e);
    PlacementExtend(Levels(es), e.depth);
  }

  lemma TextsAppend(rootText: string, es: seq<Entry>, e: Entry)
    ensures Texts(rootText, es + [e]) == Texts(rootText, es) + [e.text]
  {
  }

  lemma LevelsAppend(es: seq<Entry>, e: Entry)
    ensures Levels(es + [e]) == Levels(es) + [e.depth]
  {
  }

  lemma BuiltAppend(texts: seq<string>, t: string)
    ensures Built(texts + [t]) == Built(texts) + [LineNode(t)]
  {
    assert (texts + [t])[..|texts|] == texts;
  }

  lemma UnlinkAllAppend(ns: seq<DependencyNode>, n: DependencyNode)
    ensures UnlinkAll(ns + [n]) == UnlinkAll(ns) + [Unlinked(n)]
  {
  }

  /** The state the scan keeps between lines: the arena assembled from the root text and
      the entries read so far, linked and in creation order, and the stacks in shape. */
  ghost predicate Parsing(ns: seq<DependencyNode>, rootText: string, es: seq<Entry>, nodeStack: seq<nat>, depthStack: seq<nat>) {
    Assembled(ns, rootText, es) && Linked(ns) && InCreationOrder(ns) &&
    Spine(Levels(es), nodeStack, depthStack)
  }

  /** The end of the loop body for a line that yields an entry: `parseTreeLine` of the
      cleaned text, then the stacks decide where the node hangs. */
  method AddEntry(tree: DependencyTree, nodeStack: seq<nat>, depthStack: seq<nat>, cleanedLine: string, depth: nat, ghost rootText: string, ghost es: seq<Entry>)
    returns (nodeStack': seq<nat>, depthStack': seq<nat>)
    requires Parsing(tree.nodes, rootText, es, nodeStack, depthStack)
    modifies tree
    ensures Parsing(tree.nodes, rootText, es + [Entry(depth, cleanedLine)], nodeStack', depthStack')
  {
    ghost var prev := tree.nodes;
    ghost var d := Levels(es);
    assert |prev| == |UnlinkAll(prev)| == |Texts(rootText, es)| == |d|;
    var node := ParseTreeLine(tree, cleanedLine);
    ghost var built := tree.nodes;
    ghost var t;
    nodeStack', depthStack', t := PlaceNode(tree, nodeStack, depthStack, node, depth);
    StackStep(d, nodeStack, depthStack, depth, t);
    if t == 0 {
      ParentsLast(built);
    }
    AssembledStep(prev, built, tree.nodes, rootText, es, Entry(depth, cleanedLine));
    LevelsAppend(es, Entry(depth, cleanedLine));
  }

  /** The tests at the head of the loop body of `parseMavenTreeOutput`: `continue`,
      `break`, or the depth and cleaned text of a dependency line. */
  method ClassifyLine(line: string) returns (scan: Scan)
    ensures scan == ScanLine(line)
  {
    if !Contains(line, "[INFO]") || !Contains(line, ":") {
      return Skip;
    }
    if Contains(line, "---") || Contains(line, "BUILD") {
      return Stop;
    }
    var infoEnd := IndexOfChar(line, ']');
    if infoEnd == -1 {
      return Skip;
    }
    var depLine := line[infoEnd + 1..];
    var depth := CalculateDepth(depLine);
    var cleanedLine := CleanLine(depLine);
    if cleanedLine == [] || !Contains(cleanedLine, ":") {
      return Skip;
    }
    return Keep(Entry(depth, cleanedLine));
  }

  /** The loop body of `parseMavenTreeOutput` for one line: skipped, the end of the scan
      (`stop`), or one more entry. */
  method ReadLine(tree: DependencyTree, nodeStack: seq<nat>, depthStack: seq<nat>, line: string, ghost rootText: string, ghost es: seq<Entry>)
    returns (nodeStack': seq<nat>, depthStack': seq<nat>, stop: bool, ghost es': seq<Entry>)
    requires Parsing(tree.nodes, rootText, es, nodeStack, depthStack)
    modifies tree
    ensures stop <==> ScanLine(line).Stop?
    ensures es' == es + (if ScanLine(line).Keep? then [ScanLine(line).entry] else [])
    ensures Parsing(tree.nodes, rootText, es', nodeStack', depthStack')
  {
    var scan := ClassifyLine(line);
    nodeStack', depthStack', stop, es' := nodeStack, depthStack, scan.Stop?, es;
    if scan.Keep? {
      nodeStack', depthStack' := AddEntry(tree, nodeStack, depthStack, scan.entry.text, scan.entry.depth, rootText, es);
      es' := es + [scan.entry];
    }
  }

  /** One line of the scan that does not end it. */
  lemma EntriesNext(lines: seq<string>, start: nat, i: nat, es: seq<Entry>, es': seq<Entry>)
    requires i < |lines| && !ScanLine(lines[i]).Stop?
    requires Entries(lines, start) == es + Entries(lines, i)
    requires es' == es + (if ScanLine(lines[i]).Keep? then [ScanLine(lines[i]).entry] else [])
    ensures Entries(lines, start) == es' + Entries(lines, i + 1)
  {
    var scan := ScanLine(lines[i]);
    var here := if scan.Keep? then [scan.entry] else [];
    EntriesUnfold(lines, i);
    AppendAssociates(es, here, Entries(lines, i + 1));
  }

  lemma AppendAssociates(a: seq<Entry>, b: seq<Entry>, c: seq<Entry>)
    ensures a + (b + c) == (a + b) + c
  {
  }

  lemma EntriesUnfold(lines: seq<string>, i: nat)
    requires i < |lines| && !ScanLine(lines[i]).Stop?
    ensures Entries(lines, i) == (if ScanLine(lines[i]).Keep? then [ScanLine(lines[i]).entry] else []) + Entries(lines, i + 1)
  {
  }

  /** `parseMavenTreeOutput(output)`: the lines are `output.split("\n")`. Without a root
      line it fails with the source's message. Otherwise node 0 is the root, built from the
      text after the root line's `]`, and the entries of the following lines become nodes
      1, 2, … in order, each hung where `ParentOf` says; nodes the stack could not place
      stay in the arena unlinked. */
  method ParseMavenTreeOutput(output: string) returns (tree: DependencyTree, root: Result<nat>)
    ensures fresh(tree)
    ensures tree.Valid() && InCreationOrder(tree.nodes)
    ensures var lines := JavaSplit(output, '\n');
      var start := RootIndex(lines);
      if start < 0 then
        root == Failure("Could not find dependency tree in Maven output") && tree.nodes == []
      else
        root == Success(0) && Assembled(tree.nodes, AfterBracket(lines[start]), Entries(lines, start + 1))
  {
    var lines := JavaSplit(output, '\n');
    tree := new DependencyTree();
    var startLine := FindRoot(lines);
    if startLine == -1 {
      root := Failure("Could not find dependency tree in Maven output");
      return;
    }
    var rootLine := AfterBracket(lines[startLine]);
    var rootId := ParseTreeLine(tree, rootLine);
    StartParsing(tree.nodes, rootLine);
    ReadLines(tree, lines, startLine + 1, rootLine);
    root := Success(rootId);
  }

  /** The arena holding only the root node, and the stacks holding only it. */
  lemma StartParsing(ns: seq<DependencyNode>, rootText: string)
    requires ns == [LineNode(rootText)]
    ensures Parsing(ns, rootText, [], [0], [0])
  {
    assert Levels([]) == [0] && Texts(rootText, []) == [rootText];
    assert Built([rootText]) == [LineNode(rootText)];
  }

  /** The loop of `parseMavenTreeOutput` over the lines after the root line. */
  method ReadLines(tree: DependencyTree, lines: seq<string>, start: nat, ghost rootText: string)
    requires Parsing(tree.nodes, rootText, [], [0], [0])
    modifies tree
    ensures Assembled(tree.nodes, rootText, Entries(lines, start))
    ensures tree.Valid() && InCreationOrder(tree.nodes)
  {
    var nodeStack: seq<nat> := [0];
    var depthStack: seq<nat> := [0];
    ghost var es: seq<Entry> := [];
    var i := start;
    assert Entries(lines, start) == es + Entries(lines, i) by {
      EmptyAppend(Entries(lines, start));
    }
    while i < |lines|
      invariant start <= i
      invariant Entries(lines, start) == es + Entries(lines, i)
      invariant Parsing(tree.nodes, rootText, es, nodeStack, depthStack)
      decreases |lines| - i
    {
      var stop;
      ghost var es';
      nodeStack, depthStack, stop, es' := ReadLine(tree, nodeStack, depthStack, lines[i], rootText, es);
      if stop {
        EntriesStop(lines, i, es);
        break;
      }
      EntriesNext(lines, start, i, es, es');
      es := es';
      i := i + 1;
    }
    if i >= |lines| {
      EntriesStop(lines, i, es);
    }
  }

  lemma EmptyAppend(es: seq<Entry>)
    ensures [] + es == es
  {
  }

  /** The line that ends the scan, or the end of the lines, ends the entries. */
  lemma EntriesStop(lines: seq<string>, i: nat, es: seq<Entry>)
    requires i >= |lines| || ScanLine(lines[i]).Stop?
    ensures es + Entries(lines, i) == es
  {
  }
}
