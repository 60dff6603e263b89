# Verbose dependency-tree decoding and tree queries of the Maven dependency viewer

The viewer runs `mvn dependency:tree -Dverbose`, decodes the text report into a tree of
`DependencyNode`s, rewrites the tree in place (effective scopes, notes about managed
versions), sizes artifacts through a memoising cache, and shows the tree with filters and
a summary line of counters. This project models that core in Dafny:

- `dependency_node.dfy` — `DependencyNode` as a value, and the heap of node objects as
  the class `DependencyTree`. A node reference is an index into the `nodes` sequence; every
  constructor and setter of the Java class is a method of `DependencyTree`. `Linked`
  states that the child lists and parent references agree and that every child comes
  after its parent. `InCreationOrder` states that every child list is increasing.
- `tree_line.dfy` — one report line: `calculateDepth`, the glyph stripping and trimming of
  the line, and `parseTreeLine`. Node construction is the functions `Interpret`/`LineNode`;
  the method `ParseTreeLine` builds the node through the constructor and setters and is
  proved to produce exactly `LineNode(line)`.
- `tree_parser.dfy` — `parseMavenTreeOutput`: the root search, the scan of the
  following lines, and the two stacks that decide where each node hangs. The result is
  specified by `Assembled`. It says the arena holds `parseTreeLine` of the root text and
  of each scanned line, in order. It also says each node hangs under `ParentOf`, a
  stack-free description of the placement: the last earlier node of smaller depth, as
  long as the stack has not emptied.
- `scope_passes.dfy` — `propagateScope` and `propagateManagedVersionNotes`, each proved to
  rewrite exactly a described set of nodes (`RewrittenAt`) and to leave the links alone.
- `artifact_sizes.dfy` — `getArtifactSize` with `sizeCache`, `calculateTotalSize`, and
  `formatSize`.
- `summary.dfy` — the counters of the summary section: `countAllDependencies`,
  `countByScope`, `countOptionalDependencies` and `calculateSizeByScope`.
- `tree_view.dfy` — the filters: `matchesFilters`, `hasMatchingChildren` and
  `filterDependencyTree`.
- `tree_facts.dfy` — reading a tree: the nodes reachable through gated children
  (`Subtree`, `Descendants`), and sums of per-node weights over them.
- `java_string.dfy` — the `java.lang.String` operations the decoder relies on (`indexOf`,
  `lastIndexOf`, `contains`, `trim`, `split`, `toLowerCase`, `Long.toString`, and one
  `Matcher.find`/`group(1)` pattern), with the facts about them the proofs use.
- `results.dfy` — `Option` and `Result`.

The repository has two copies of the decoder, `org/example/MavenDependencyService.java`
and `in/virit/vdt/MavenDependencyService.java`. They differ only in comments, so they are
modelled once and cited in the first copy. Their places in the second copy are
`parseMavenTreeOutput` 175-259 (root search 180-196, loop 212-256), `calculateDepth`
264-278, `parseTreeLine` 286-378, `getArtifactSize` 384-433, `formatSize` 438-450 and
`calculateTotalSize` 456-469.

Where the code behaves differently from what its documentation suggests, the model
follows the code:

- A line whose depth pops the whole stack is parsed and kept as a node, but hangs
  nowhere. So does every later line, and no error is raised (`DetachedAfterEmpty`).
- The root line must hold `:jar:`, `:war:` or `:pom:`, start with `[INFO]` after trimming,
  hold no `---`, and leave text with at least three `:` and no line terminator after `]`.
- `parseTreeLine` never sets the type, so a parsed node's type stays unset, not `jar`.
- The omission reason is stored without its `omitted for` prefix.
- A `version managed from` note is not added twice (`VersionNoteIdempotent`). A `scope
  managed from` note is always appended (`ScopeNoteRepeats`).
- `propagateScope` always sets the node's own scope. Only `test`, `provided` and
  `runtime` go further (`OtherScopeOnlyNode`).
- `calculateDepth` counts bars and the first branch glyph, not spaces. A line under a
  last child (`\-`) therefore gets the depth of its parent (`LastBranchChildDepth`).
- The cache key `groupId:artifactId:version` can be shared by different coordinates that
  contain `:` (`CacheKeyCollision`). The size found can be negative: a missing
  `Content-Length` reads as -1.

## Model

| member | source | states |
|---|---|---|
| DependencyNodes.DependencyNode.ToString | src/main/java/org/example/DependencyNode.java:135-148 | the text starts with the coordinates; `:type` follows them exactly when the type is set and not `jar` (a `:` right after the coordinates iff so), then ` (scope)` at the next offset exactly when the scope is set and not `compile`, then ` (optional)` at the end when optional; the length is the sum of exactly these parts, so the text is the bare coordinates iff none is shown |
| DependencyNodes.DependencyNode.Coordinates | src/main/java/org/example/DependencyNode.java:130-132 | defines `getCoordinates()`: group, artifact and version joined by `:` (its split is `CoordinatesSplit`) |
| DependencyNodes.CoordinatesSplit | src/main/java/org/example/DependencyNode.java:130-132 | the coordinates of a node with non-empty, colon-free identity fields split on `:` back into exactly those three fields |
| DependencyNodes.DependencyTree.New | src/main/java/org/example/DependencyNode.java:22-26 | a fresh node is appended with the three fields, no scope, type, notes or reason, both flags false, no children and no parent; the arena stays linked and in creation order |
| DependencyNodes.DependencyTree.NewWith | src/main/java/org/example/DependencyNode.java:28-35 | as `New`, with the given scope, type and optional flag |
| DependencyNodes.DependencyTree.SetGroupId | src/main/java/org/example/DependencyNode.java:41-43 | only the group of that node changes; the arena stays linked |
| DependencyNodes.DependencyTree.SetArtifactId | src/main/java/org/example/DependencyNode.java:49-51 | only the artifact of that node changes; the arena stays linked |
| DependencyNodes.DependencyTree.SetVersion | src/main/java/org/example/DependencyNode.java:57-59 | only the version of that node changes; the arena stays linked |
| DependencyNodes.DependencyTree.SetScope | src/main/java/org/example/DependencyNode.java:65-67 | only the scope of that node changes; links and child order are kept |
| DependencyNodes.DependencyTree.SetType | src/main/java/org/example/DependencyNode.java:73-75 | only the type of that node changes; the arena stays linked |
| DependencyNodes.DependencyTree.SetOptional | src/main/java/org/example/DependencyNode.java:81-83 | only the optional flag of that node changes; links and child order are kept |
| DependencyNodes.DependencyTree.SetNotes | src/main/java/org/example/DependencyNode.java:89-91 | only the notes of that node change; links and child order are kept |
| DependencyNodes.DependencyTree.SetOmitted | src/main/java/org/example/DependencyNode.java:97-99 | only the omitted flag of that node changes; links and child order are kept |
| DependencyNodes.DependencyTree.SetOmittedReason | src/main/java/org/example/DependencyNode.java:105-107 | only the omission reason of that node changes; links and child order are kept |
| DependencyNodes.DependencyTree.SetChildren | src/main/java/org/example/DependencyNode.java:113-115 | replaces the child list of that node alone, without touching any parent reference |
| DependencyNodes.DependencyTree.SetParent | src/main/java/org/example/DependencyNode.java:126-128 | replaces the parent reference of that node alone, without touching any child list |
| DependencyNodes.DependencyTree.AddChild | src/main/java/org/example/DependencyNode.java:117-120 | the child names the node as its parent and is appended to the node's children; every other field and node is unchanged |
| DependencyNodes.AdoptShape | src/main/java/org/example/DependencyNode.java:117-120 | `addChild` grows one child list by the child and sets one parent reference; every other list and reference is unchanged |
| DependencyNodes.AdoptLinked | src/main/java/org/example/DependencyNode.java:117-120 | adopting a later, parentless node keeps child lists and parent references consistent |
| DependencyNodes.AdoptInCreationOrder | src/main/java/org/example/DependencyNode.java:117-120 | adopting a node later than all present children keeps every child list increasing |
| TreeLine.CalculateDepth | src/main/java/org/example/MavenDependencyService.java:619-633 | the loop returns `Depth(line)`: the bars in the leading run of spaces and bars, plus one when a branch glyph ends that run; never more than the line's length |
| TreeLine.Depth | src/main/java/org/example/MavenDependencyService.java:619-633 | the depth is at most the line's length, and 0 for a line that starts with neither indentation nor a branch glyph |
| TreeLine.LeadingIndentAt | src/main/java/org/example/MavenDependencyService.java:622-631 | the scan stops at the first character that is neither space nor bar, or at the end |
| TreeLine.DrawnLineDepth | src/main/java/org/example/MavenDependencyService.java:619-633 | a line drawn with fill segments `\|  ` and three spaces, then a branch glyph, has depth one more than its number of bar segments |
| TreeLine.LastBranchChildDepth | src/main/java/org/example/MavenDependencyService.java:619-633 | ` \- x` and `    \- x` both have depth 1: indentation spaces are not counted |
| TreeLine.StripTreePrefix | src/main/java/org/example/MavenDependencyService.java:590 | defines the `replaceFirst` of the leading run: drops leading tree glyphs (`\|`, `+`, `\`, `-`) and whitespace one at a time, never lengthening the text (the run dropped is described by `StripTreePrefixFacts`) |
| TreeLine.CleanLine | src/main/java/org/example/MavenDependencyService.java:590 | defines the cleaned line: glyphs stripped, then trimmed; never longer than the line |
| TreeLine.StripTreePrefixFacts | src/main/java/org/example/MavenDependencyService.java:590 | stripping drops a leading run of tree glyphs and whitespace, and what remains does not start with one |
| TreeLine.SplitLine | src/main/java/org/example/MavenDependencyService.java:645-667 | defines the two line grammars: a line starting with `(` and holding `)` is cut inside the parentheses, up to the last `)`, at the first ` - ` after index 0; otherwise a ` (` after index 0 ends the coordinates and the annotation runs to the last `)` when it comes later; both parts trimmed (its round trips are `SplitPlain`, `SplitAnnotated`, `SplitOmitted`) |
| TreeLine.SplitPlain | src/main/java/org/example/MavenDependencyService.java:656-667 | a line of bare coordinates splits into those coordinates and no annotation |
| TreeLine.SplitAnnotated | src/main/java/org/example/MavenDependencyService.java:656-667 | `coords (annotations)` splits back into the coordinates and the trimmed annotations |
| TreeLine.SplitOmitted | src/main/java/org/example/MavenDependencyService.java:645-655 | `(coords - annotations)` splits back into the coordinates and the trimmed annotations |
| TreeLine.Interpret | src/main/java/org/example/MavenDependencyService.java:671-683 | a node built from a line has no links and no type, and its identity fields are colon-free |
| TreeLine.InterpretParts | src/main/java/org/example/MavenDependencyService.java:671-683 | fewer than three `:` fields give the `unknown` placeholder; otherwise group and artifact are fields 1 and 2, the version field 4 or `unknown`, the scope field 5 or `compile`, then the annotations are applied |
| TreeLine.InterpretJoined | src/main/java/org/example/MavenDependencyService.java:671-683 | for three to five coordinate words, each identity field of the node is the matching word |
| TreeLine.InterpretCoordinates | src/main/java/org/example/MavenDependencyService.java:671-730 | coordinates joined by `:` are read back as the node they describe, with the annotations applied |
| TreeLine.PlainLineRoundTrip | src/main/java/org/example/MavenDependencyService.java:641-733 | a line of three to five coordinate words and no annotation parses to exactly the node those words describe |
| TreeLine.AnnotatedLineRoundTrip | src/main/java/org/example/MavenDependencyService.java:641-733 | `coords (annotations)` parses to the coordinates' node with those annotations applied |
| TreeLine.OmittedLineRoundTrip | src/main/java/org/example/MavenDependencyService.java:641-733 | `(coords - annotations)` parses to the coordinates' node with the trimmed annotations applied |
| TreeLine.LineNodeFlags | src/main/java/org/example/MavenDependencyService.java:686-701 | a parsed node is optional iff its annotation text is non-empty and holds `optional`, and omitted iff it is non-empty and holds `omitted for` |
| TreeLine.WithOptional | src/main/java/org/example/MavenDependencyService.java:688-690 | the node becomes optional iff it was or the annotation holds `optional`; nothing else changes |
| TreeLine.WithOmission | src/main/java/org/example/MavenDependencyService.java:693-701 | the node becomes omitted iff it was or the annotation holds `omitted for`; the reason changes only on an omitted node |
| TreeLine.OmissionReasonRoundTrip | src/main/java/org/example/MavenDependencyService.java:693-701 | `omitted for R` marks the node omitted with reason exactly `R` |
| TreeLine.AnnotateOmission | src/main/java/org/example/MavenDependencyService.java:686-730 | after all four annotation checks, `omitted for R` still leaves the node omitted with reason `R` |
| TreeLine.AnnotateOptional | src/main/java/org/example/MavenDependencyService.java:686-730 | the annotation `optional` sets the optional flag and nothing else |
| TreeLine.AppendNote | src/main/java/org/example/MavenDependencyService.java:709-713 | a note becomes the only note on a node without notes, and otherwise follows the earlier notes and `; ` |
| TreeLine.WithVersionNote | src/main/java/org/example/MavenDependencyService.java:704-715 | the version check changes nothing but the notes |
| TreeLine.WithScopeNote | src/main/java/org/example/MavenDependencyService.java:718-729 | the scope check changes nothing but the notes |
| TreeLine.Annotate | src/main/java/org/example/MavenDependencyService.java:686-730 | the annotation checks keep the identity, scope, type and links of the node |
| TreeLine.VersionNoteFirst | src/main/java/org/example/MavenDependencyService.java:704-715 | on a node without notes, `version managed from V…` gives the single note `version managed from` and the trimmed `V` |
| TreeLine.VersionNoteIdempotent | src/main/java/org/example/MavenDependencyService.java:704-715 | applying the version check twice equals applying it once |
| TreeLine.ScopeNoteStep | src/main/java/org/example/MavenDependencyService.java:718-729 | `scope managed from S…` appends the note `scope managed from` and the trimmed `S` to whatever notes there are |
| TreeLine.ScopeNoteRepeats | src/main/java/org/example/MavenDependencyService.java:718-729 | applying the scope check twice appends the scope note twice |
| TreeLine.LineNodeNotes | src/main/java/org/example/MavenDependencyService.java:704-729 | a parsed node's notes are the version note, then the scope note, joined by `; `, each present only when its marker is followed by text |
| TreeLine.FindGroupContains | src/main/java/org/example/MavenDependencyService.java:704-725 | a `marker ([^;]+)` match is found only where the marker text itself occurs, so the `contains` guard never hides one |
| TreeLine.ParseTreeLine | src/main/java/org/example/MavenDependencyService.java:641-733 | appends exactly the node `LineNode(line)` and returns its index; links and child order are kept |
| TreeLine.LineNode | src/main/java/org/example/MavenDependencyService.java:641-733 | the node a line parses to has no children, no parent and no type, and colon-free identity fields |
| TreeLine.AddParts | src/main/java/org/example/MavenDependencyService.java:670-730 | the constructor and setters applied to a split line append exactly `Interpret` of its parts |
| TreeLine.ApplyAnnotations | src/main/java/org/example/MavenDependencyService.java:686-730 | the four checks, in order, replace the node by `Annotate` of it and change no other node |
| TreeLine.ApplyOptional | src/main/java/org/example/MavenDependencyService.java:688-690 | replaces the node by `WithOptional` of it and changes no other node |
| TreeLine.ApplyOmission | src/main/java/org/example/MavenDependencyService.java:693-701 | replaces the node by `WithOmission` of it and changes no other node |
| TreeLine.ApplyVersionNote | src/main/java/org/example/MavenDependencyService.java:704-715 | replaces the node by `WithVersionNote` of it and changes no other node |
| TreeLine.ApplyScopeNote | src/main/java/org/example/MavenDependencyService.java:718-729 | replaces the node by `WithScopeNote` of it and changes no other node |
| TreeParser.FirstMatch | src/main/java/org/example/MavenDependencyService.java:535-551 | the first line from the start index that the test accepts, or -1 when none is accepted |
| TreeParser.AfterBracket | src/main/java/org/example/MavenDependencyService.java:545 | defines the root text: the line after its first `]`, trimmed, or the whole line trimmed when it has no `]`; the root node is parsed from the same text (line 558) |
| TreeParser.RootLine | src/main/java/org/example/MavenDependencyService.java:539-549 | defines the root test: `:jar:`, `:war:` or `:pom:` occurs, the trimmed line starts with `[INFO]`, `---` does not occur, and the root text has at least three `:` and no line terminator |
| TreeParser.RootIndex | src/main/java/org/example/MavenDependencyService.java:535-551 | defines the root index as the first line passing `RootLine`, or -1 (its properties are `RootIndexFacts`) |
| TreeParser.RootIndexFacts | src/main/java/org/example/MavenDependencyService.java:535-555 | the root index names a root line with no root line before it, and is -1 exactly when no line is a root line |
| TreeParser.FindRoot | src/main/java/org/example/MavenDependencyService.java:535-551 | the search loop returns the root index: the first accepted root line, or -1 |
| TreeParser.ClassifyLine | src/main/java/org/example/MavenDependencyService.java:570-594 | the tests at the head of the loop body skip, stop, or yield the depth and cleaned text exactly as `ScanLine` describes |
| TreeParser.ScanLine | src/main/java/org/example/MavenDependencyService.java:570-594 | the scan stops exactly at a line with `[INFO]`, `:` and `---` or `BUILD`; a kept entry has non-empty text holding `:`, comes from a line with `]`, and has a depth within the line |
| TreeParser.Entries | src/main/java/org/example/MavenDependencyService.java:567-611 | the entries of the lines from an index on, stopping at the first line that ends the scan: no more entries than lines, and every entry's text is non-empty and holds `:` |
| TreeParser.Nearest | src/main/java/org/example/MavenDependencyService.java:600-603 | the last node before a bound whose depth is smaller than the given node's, or none |
| TreeParser.NearestUnique | src/main/java/org/example/MavenDependencyService.java:600-603 | a shallower node with nothing shallower after it is the one found |
| TreeParser.ParentOf | src/main/java/org/example/MavenDependencyService.java:600-610 | a node's parent, when it has one, is an earlier node (its full placement is `ParentOfFacts`) |
| TreeParser.ParentOfFacts | src/main/java/org/example/MavenDependencyService.java:600-610 | an attached node below the root has a parent: an earlier, shallower, attached node with nothing shallower in between |
| TreeParser.ParentOneLevelUp | src/main/java/org/example/MavenDependencyService.java:600-610 | when each line is at most one level deeper than the one before, a node's parent is exactly one level up |
| TreeParser.AncestorsMatchDepth | src/main/java/org/example/MavenDependencyService.java:587-610 | under the same drawing rule, an attached node has as many ancestors as its depth |
| TreeParser.ParentOfExtend | src/main/java/org/example/MavenDependencyService.java:567-611 | reading more lines never moves a node placed earlier |
| TreeParser.SpineKeep | src/main/java/org/example/MavenDependencyService.java:600-609 | popping to the last stacked node shallower than the new one and pushing the new one keeps the stack invariant |
| TreeParser.SpineParent | src/main/java/org/example/MavenDependencyService.java:600-607 | the node on top after popping is the new node's `ParentOf` |
| TreeParser.SpineEmpty | src/main/java/org/example/MavenDependencyService.java:600-606 | popping every node leaves the new node without a parent and the stacks empty for good |
| TreeParser.StackStep | src/main/java/org/example/MavenDependencyService.java:600-610 | where the popping stops decides the parent: the node below the stop point, or none when the stack empties |
| TreeParser.PopShallower | src/main/java/org/example/MavenDependencyService.java:600-603 | pops exactly the top entries whose depth is at least the new depth, keeping both stacks equally long |
| TreeParser.PlaceNode | src/main/java/org/example/MavenDependencyService.java:600-610 | after popping, a non-empty stack adopts the new node and pushes it; an empty one leaves the arena unchanged |
| TreeParser.AdoptLast | src/main/java/org/example/MavenDependencyService.java:607 | `addChild` of the newest node changes no node content and only the newest node's parent reference |
| TreeParser.AdoptedLinks | src/main/java/org/example/MavenDependencyService.java:607 | an arena differing only by that adoption has the same unlinked nodes, and its parent column gains only the new reference |
| TreeParser.NewestIsLastChild | src/main/java/org/example/MavenDependencyService.java:607 | the newest node, when placed, is the last child of its parent |
| TreeParser.AssembledNodes | src/main/java/org/example/MavenDependencyService.java:597-610 | an assembled arena holds, at each index, `parseTreeLine` of that line's text with the parent `ParentOf` gives |
| TreeParser.AssembledChildren | src/main/java/org/example/MavenDependencyService.java:606-610 | in an assembled arena a node's children are exactly the nodes `ParentOf` hangs below it |
| TreeParser.AssembledStep | src/main/java/org/example/MavenDependencyService.java:597-610 | one more scanned line, parsed and placed, keeps the arena assembled |
| TreeParser.AddEntry | src/main/java/org/example/MavenDependencyService.java:597-610 | parsing a kept line and placing its node extends the assembled arena by that entry and keeps the stack invariant |
| TreeParser.ReadLine | src/main/java/org/example/MavenDependencyService.java:568-610 | one loop iteration stops iff the line ends the scan, and otherwise adds exactly the entry `ScanLine` yields, if any |
| TreeParser.EntriesNext | src/main/java/org/example/MavenDependencyService.java:567-611 | a line that does not end the scan adds its entry, if any, to those read so far |
| TreeParser.EntriesStop | src/main/java/org/example/MavenDependencyService.java:576-578 | the line that ends the scan, or the end of the lines, ends the entries |
| TreeParser.ReadLines | src/main/java/org/example/MavenDependencyService.java:562-611 | the loop over the lines after the root yields the arena assembled from the root text and every entry before the ending line |
| TreeParser.ParseMavenTreeOutput | src/main/java/org/example/MavenDependencyService.java:531-614 | without a root line it fails with the source's message and builds nothing; otherwise node 0 is the root from the text after `]`, and the arena is assembled from the entries of the following lines |
| TreeParser.StartParsing | src/main/java/org/example/MavenDependencyService.java:558-565 | the root alone on both stacks at depth 0 starts the scan in its invariant |
| TreeParser.ParsedDepthConsistency | src/main/java/org/example/MavenDependencyService.java:587-610 | in a parsed tree drawn one level at a time, every node placed before the stack first empties has as many ancestors as the depth read from its line |
| TreeParser.DetachedAfterEmpty | src/main/java/org/example/MavenDependencyService.java:600-610 | once an entry has depth 0, it and every later node have no parent and no children, and nothing is raised |
| TreeParser.SamplePlacement | src/main/java/org/example/MavenDependencyService.java:562-611 | entries at depths 1, 2, 1 under the root give the root the children 1 and 3, node 1 the child 2, and the matching parents |
| TreeParser.SampleParents | src/main/java/org/example/MavenDependencyService.java:600-610 | lines at depths 1, 2, 1 under the root hang under the root, the first of them, and the root |
| ScopePasses.RewrittenLinks | src/main/java/org/example/MavenDependencyService.java:483-526 | rewriting nodes by an update that keeps links keeps the arena linked and in creation order |
| ScopePasses.RewriteSubtree | src/main/java/org/example/MavenDependencyService.java:484-498 | setting the node, then handling its gated descendants, rewrites exactly its gated subtree |
| ScopePasses.RewriteStep | src/main/java/org/example/MavenDependencyService.java:486-497 | one more child handled, recursing only when its gate holds, extends the rewritten set by that child's gated subtree |
| ScopePasses.UntouchedSubtree | src/main/java/org/example/MavenDependencyService.java:486-497 | the subtree of a child not yet visited is as it was, so its gate reads the original scopes |
| ScopePasses.RewriteOne | src/main/java/org/example/MavenDependencyService.java:484 | updating one node rewrites exactly that node |
| ScopePasses.PropagateScope | src/main/java/org/example/MavenDependencyService.java:483-499 | exactly the gated subtree of the node takes the scope: the node, and each child the scope rule admits, recursively; every other node and all links are unchanged |
| ScopePasses.OverridingScopeReachesAll | src/main/java/org/example/MavenDependencyService.java:490-492 | `test` and `provided` reach every descendant |
| ScopePasses.RuntimeSkipsOtherScopes | src/main/java/org/example/MavenDependencyService.java:494-496 | `runtime` leaves the whole subtree of a child with another set scope untouched |
| ScopePasses.RuntimeFollowsCompile | src/main/java/org/example/MavenDependencyService.java:494-496 | `runtime` reaches every node joined to the start by compile-scoped or unscoped nodes |
| ScopePasses.OtherScopeOnlyNode | src/main/java/org/example/MavenDependencyService.java:483-499 | any other scope, unset included, changes the node alone |
| ScopePasses.ManagedNote | src/main/java/org/example/MavenDependencyService.java:510-521 | only the notes can change, and only when the map pins the node's group and artifact to another version |
| ScopePasses.ManagedNoteText | src/main/java/org/example/MavenDependencyService.java:513-520 | a managed node's notes become the earlier notes, `; `, and `version managed from V`, or just that note; the node is unchanged iff it is not managed |
| ScopePasses.AddManagedNote | src/main/java/org/example/MavenDependencyService.java:510-521 | the loop body replaces the child by `ManagedNote` of it and changes no other node |
| ScopePasses.PropagateManagedVersionNotes | src/main/java/org/example/MavenDependencyService.java:504-526 | every strict descendant, and nothing else, gets its managed-version note; the starting node and all links are unchanged |
| ArtifactSizes.CacheKeyInjective | src/main/java/org/example/MavenDependencyService.java:740 | colon-free coordinates have a key that no other coordinates share |
| ArtifactSizes.KeyFields | src/main/java/org/example/MavenDependencyService.java:740 | the key of colon-free coordinates splits at `:` into exactly those coordinates |
| ArtifactSizes.CacheKeyCollision | src/main/java/org/example/MavenDependencyService.java:740 | different coordinates holding `:` can share a key |
| ArtifactSizes.SizeService.CachedIsLookup | src/main/java/org/example/MavenDependencyService.java:743-745 | a cached size for colon-free coordinates is their own lookup |
| ArtifactSizes.SizeService.GetArtifactSize | src/main/java/org/example/MavenDependencyService.java:739-788 | a cached key answers from the cache, a new key is looked up; afterwards the key holds the returned size and no other entry changes; for colon-free coordinates the answer is their lookup |
| ArtifactSizes.SizeService.CalculateTotalSize | src/main/java/org/example/MavenDependencyService.java:811-824 | the total is the sum of the sizes over the node's subtree, descending only into children that are not omitted; every earlier cache entry is kept unchanged, and the cache gains exactly the keys of the nodes summed |
| ArtifactSizes.SizeService.ChildTotal | src/main/java/org/example/MavenDependencyService.java:815-820 | one child: its whole non-omitted subtree total, or nothing when it is omitted; earlier entries are kept and the cache gains exactly that subtree's keys |
| ArtifactSizes.CachePut | src/main/java/org/example/MavenDependencyService.java:786 | `put` of a key that is absent, or already holds the same size, keeps every other entry and adds just that key |
| ArtifactSizes.StartKeys | src/main/java/org/example/MavenDependencyService.java:812 | before any child is visited, the keys of the summed nodes are the node's own key |
| ArtifactSizes.NextChildKeys | src/main/java/org/example/MavenDependencyService.java:815-820 | one more child visited adds the keys of its subtree when it is not omitted, and nothing otherwise |
| ArtifactSizes.OmittedSubtreeExcluded | src/main/java/org/example/MavenDependencyService.java:814-821 | no node below an omitted child, the child included, is in the summed subtree |
| ArtifactSizes.FormatSize | src/main/java/org/example/MavenDependencyService.java:793-805 | the result is a literal text exactly when the size is below 1024, and a formatted amount otherwise |
| ArtifactSizes.FormatSmallSizes | src/main/java/org/example/MavenDependencyService.java:794-796 | zero is `-`; a positive size below 1024 is its decimal digits without a leading zero, which read back as the size, then ` B`; a negative one is `-`, the digits of its magnitude without a leading zero and ` B` |
| ArtifactSizes.FormatScaledSizes | src/main/java/org/example/MavenDependencyService.java:797-804 | each scaled branch uses its pattern, and its amount times the unit is the size, at least one and, below GB, under 1024 |
| Summary.CountAllDependencies | src/main/java/org/example/MainView.java:520-529 | the count is the number of strict descendants |
| Summary.CountByScope | src/main/java/org/example/MainView.java:531-542 | the count is the number of strict descendants with that scope |
| Summary.CountOptionalDependencies | src/main/java/org/example/MainView.java:544-555 | the count is the number of strict descendants marked optional |
| Summary.CalculateSizeByScope | src/main/java/org/example/MainView.java:557-576 | the size is the sum of lookups over the strict descendants with that scope reached without entering omitted children; every earlier cache entry is kept unchanged, and the cache gains exactly the keys of the nodes summed |
| Summary.ChildSizeByScope | src/main/java/org/example/MainView.java:560-572 | one child: nothing when omitted; otherwise its size when its scope is the given one, plus the scoped total below it; earlier entries are kept and the cache gains exactly the keys of the nodes summed |
| Summary.ScopedKeysStep | src/main/java/org/example/MainView.java:560-572 | one more child visited adds the keys of its scoped nodes, itself included, when it is not omitted, and nothing otherwise |
| Summary.WhereOneKeys | src/main/java/org/example/MainView.java:567-569 | a single child contributes its key exactly when its scope is the given one |
| TreeView.OpenFiltersMatchAll | src/main/java/org/example/MainView.java:188-215 | a blank search, scope `All` or unset, and both switches on admit every node |
| TreeView.SwitchesAndScopeReject | src/main/java/org/example/MainView.java:198-212 | a switched-off optional or omitted node never matches; a chosen scope other than `All` admits only that scope |
| TreeView.ToLowerContains | src/main/java/org/example/MainView.java:190-194 | lower-casing keeps a substring a substring |
| TreeView.BlankContains | src/main/java/org/example/MainView.java:190 | a part of a blank text is blank |
| TreeView.SearchNarrowing | src/main/java/org/example/MainView.java:190-195 | a node found with a search text is found with any non-blank part of it |
| TreeView.MatchesFilters | src/main/java/org/example/MainView.java:188-215 | defines `matchesFilters`: the search text matches, the scope filter is unset, `All` or the node's scope, and each switch is on or the node lacks that flag |
| TreeView.HasMatchingChildren | src/main/java/org/example/MainView.java:217-225 | defines `hasMatchingChildren`: some child is shown (its properties are `HasMatchingChildrenIff` and the lemmas after it) |
| TreeView.Shown | src/main/java/org/example/MainView.java:182-184 | defines the stream filter's test: the node matches or has matching children |
| TreeView.HasMatchingChildrenIff | src/main/java/org/example/MainView.java:217-225 | `hasMatchingChildren` holds exactly when some strict descendant matches the filters |
| TreeView.MatchingChildrenFound | src/main/java/org/example/MainView.java:222-224 | a child that is shown leads to a matching descendant |
| TreeView.MatchFoundInChildren | src/main/java/org/example/MainView.java:222-224 | a matching descendant makes the child toward it shown |
| TreeView.ChildlessHasNoMatch | src/main/java/org/example/MainView.java:218-220 | a node without children has no matching children |
| TreeView.FilterList | src/main/java/org/example/MainView.java:182-185 | a node is kept iff it is listed and it matches or has matching children; the list does not grow |
| TreeView.FilterListAppend | src/main/java/org/example/MainView.java:182-185 | filtering two lists one after the other gives the two filtered lists one after the other, so the relative order of kept nodes is the list's own |
| TreeView.FilterDependencyTree | src/main/java/org/example/MainView.java:178-180 | a `null` list gives an empty list |
| TreeView.FilterDependencyTreeKeeps | src/main/java/org/example/MainView.java:173-186 | a node is kept iff it is listed and it, or some node below it, matches |
| TreeView.FilterListInOrder | src/main/java/org/example/MainView.java:182-185 | an increasing list stays increasing after filtering |
| TreeView.FilterChildrenInOrder | src/main/java/org/example/MainView.java:182-185 | filtering a child list of a tree in creation order keeps it in creation order |
| JavaString.IndexOfFirst | src/main/java/org/example/MavenDependencyService.java:648 | `indexOf` finds an occurrence with none before it |
| JavaString.JavaSplit | src/main/java/org/example/MavenDependencyService.java:671 | `split` on a single character, as for the coordinates here and the report lines at line 532: no field holds the separator, and text without it gives back just itself (its round trips are `SplitOfJoin` and `JoinOfFields`) |
| JavaString.IndexOfCharFacts | src/main/java/org/example/MavenDependencyService.java:581-582 | `indexOf(c)` is -1 exactly when `c` is absent, and otherwise its first position |
| JavaString.LastIndexOfChar | src/main/java/org/example/MavenDependencyService.java:647 | `lastIndexOf(c)` is -1 exactly when `c` is absent, and otherwise its last position |
| JavaString.ContainsMatch | src/main/java/org/example/MavenDependencyService.java:571 | `contains` holds exactly when the text occurs somewhere |
| JavaString.TrimFacts | src/main/java/org/example/MavenDependencyService.java:590 | `trim` leaves text with neither end trimmable, and nothing exactly when every character is trimmable |
| JavaString.TrimFixed | src/main/java/org/example/MavenDependencyService.java:650 | trimming leaves a text alone exactly when it neither starts nor ends with a trimmable character |
| JavaString.TrimIdempotent | src/main/java/org/example/MavenDependencyService.java:650 | trimming twice is trimming once |
| JavaString.SplitOfJoin | src/main/java/org/example/MavenDependencyService.java:671 | `split(":")` gives back non-empty, colon-free fields joined by `:` |
| JavaString.FieldsOfJoin | src/main/java/org/example/MavenDependencyService.java:671 | splitting into all fields, empty ones included, undoes joining |
| JavaString.JoinOfFields | src/main/java/org/example/MavenDependencyService.java:671 | joining the fields undoes splitting |
| JavaString.DecimalRoundTrip | src/main/java/org/example/MavenDependencyService.java:795 | the decimal text of a natural number reads back as that number |
| JavaString.FindGroup | src/main/java/org/example/MavenDependencyService.java:695-699 | `find` then `group(1)` gives a non-empty, semicolon-free text, and none exactly when the pattern matches nowhere |

## Left out

- Running Maven, reading its output stream, the process exit code and the temporary
  files are not modelled. The decoder starts from the report text.
- Where a size comes from is not modelled: the local repository file, an HTTP HEAD
  request to Maven Central, or the fallback 0. The size service is built with a fixed
  function `lookup`, so a size does not change between calls.
- The Maven Resolver (Aether) path `buildVerboseDependencyTree`, its model resolution and
  `SimpleModelResolver` are not part of this model. The same holds for where
  `managedVersions` is read from; the notes pass takes the map as a given.
- The rendering of `String.format("%.1f KB", …)` and the other scaled patterns is not
  modelled: `FormatSize` returns the pattern and the amount, a real number. Only the
  integer branches are text.
- `sizeCache` is a `ConcurrentHashMap` shared across threads. The model is sequential.
- The Vaadin user interface around the filters and counters is not modelled: grid,
  columns, buttons and the summary's layout.
- `toLowerCase` is modelled on ASCII letters only; other Unicode case mappings are left
  out.
- Java's `null` child lists, which the code guards against, cannot occur in the model.
  Child lists are always sequences, and `FilterDependencyTree` takes `Option` for the
  list that may be `null`.
- Java's `int` and `long` overflow is not modelled: depths, counts and sums are
  unbounded integers.
- The `depth` parameter of `parseTreeLine` is unused by the method, so it is dropped.
- ArtifactSizes.SizeService.CalculateTotalSize: requires colon-free identity fields
  (which every parsed node has, by `LineNode`), so that each cached size is the node's
  own lookup. With colliding keys the source would sum another artifact's size.
- Summary.CalculateSizeByScope: the same colon-free requirement, for the same reason.
- A parsed node keeps the index of its parent, not an object reference, so aliasing
  between trees is not modelled. Nodes the stack could not place stay in the arena
  unlinked, where the source drops all reference to them.
- No concrete report text is parsed end to end. `SamplePlacement` proves the shape that a
  report whose entries have depths 1, 2, 1 takes. What each line parses to follows from `PlainLineRoundTrip`,
  `AnnotatedLineRoundTrip`, `OmittedLineRoundTrip`, `AnnotateOmission` and
  `AnnotateOptional`.
