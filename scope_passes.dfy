/** The passes that run over a finished tree and change its nodes in place:
    `propagateScope` and `propagateManagedVersionNotes`.

    Both visit a gated subtree and rewrite each visited node with the same per-node
    update. `RewrittenAt(ns, ms, xs, f)` says that arena `ms` is arena `ns` with every node
    in `xs` replaced by its image under `f`, and every other node as it was. */
module ScopePasses {

  import opened Results
  import opened DependencyNodes
  import opened TreeFacts
  import opened TreeLine

  // ---------------------------------------------------------------------------------------
  // Rewriting a set of nodes

  ghost predicate RewrittenAt(ns: seq<DependencyNode>, ms: seq<DependencyNode>, xs: set<nat>,
                              f: DependencyNode -> DependencyNode) {
    |ms| == |ns| &&
    forall x :: 0 <= x < |ns| ==> ms[x] == (if x in xs then f(ns[x]) else ns[x])
  }

  /** An update that leaves the child list and the parent reference alone. */
  ghost predicate KeepsLinks(f: DependencyNode -> DependencyNode) {
    forall n :: f(n).children == n.children && f(n).parent == n.parent
  }

  lemma RewrittenLinks(ns: seq<DependencyNode>, ms: seq<DependencyNode>, xs: set<nat>,
                       f: DependencyNode -> DependencyNode)
    requires RewrittenAt(ns, ms, xs, f) && KeepsLinks(f)
    ensures SameLinks(ns, ms)
    ensures Linked(ns) ==> Linked(ms)
    ensures InCreationOrder(ns) ==> InCreationOrder(ms)
  {
    assert SameLinks(ns, ms) by {
      forall x | 0 <= x < |ns| ensures ns[x].children == ms[x].children && ns[x].parent == ms[x].parent {
        if x in xs {
          assert ms[x] == f(ns[x]);
        }
      }
    }
    if Linked(ns) {
      SameLinksLinked(ns, ms);
    }
  }

  /** Rewriting a node and then its gated descendants rewrites its gated subtree. */
  lemma RewriteSubtree(ns: seq<DependencyNode>, mid: seq<DependencyNode>, ms: seq<DependencyNode>,
                       a: nat, gate: DependencyNode -> bool, f: DependencyNode -> DependencyNode)
    requires Linked(ns) && a < |ns| && KeepsLinks(f)
    requires RewrittenAt(ns, mid, {a}, f)
    requires RewrittenAt(mid, ms, Descendants(mid, a, gate), f)
    ensures RewrittenAt(ns, ms, Subtree(ns, a, gate), f)
  {
    RewrittenLinks(ns, mid, {a}, f);
    forall x ensures Reach(ns, a, gate, x) == Reach(mid, a, gate, x) {
      ReachFrame(ns, mid, a, gate, x);
    }
    assert Descendants(mid, a, gate) == Descendants(ns, a, gate);
    assert a in Subtree(ns, a, gate);
  }

  /** One more child `c` of `a` handled: its gated subtree, visited by a recursive call
      when the gate lets the descent into `c`, joins the rewritten part below `a`. */
  lemma RewriteStep(ns: seq<DependencyNode>, cur: seq<DependencyNode>, ms: seq<DependencyNode>,
                    a: nat, gate: DependencyNode -> bool, cs: seq<nat>, c: nat,
                    f: DependencyNode -> DependencyNode)
    requires Linked(ns) && a < |ns| && c in ns[a].children && c !in cs && KeepsLinks(f)
    requires RewrittenAt(ns, cur, Below(ns, a, gate, cs), f)
    requires if gate(cur[c]) then RewrittenAt(cur, ms, Subtree(cur, c, gate), f) else ms == cur
    ensures RewrittenAt(ns, ms, Below(ns, a, gate, cs + [c]), f)
  {
    BelowStep(ns, a, gate, cs, c);
    UntouchedSubtree(ns, cur, a, gate, cs, c, f);
  }

  /** The subtree of a child not yet handled is as it was, and so is its gate. */
  lemma UntouchedSubtree(ns: seq<DependencyNode>, cur: seq<DependencyNode>,
                         a: nat, gate: DependencyNode -> bool, cs: seq<nat>, c: nat,
                         f: DependencyNode -> DependencyNode)
    requires Linked(ns) && a < |ns| && c in ns[a].children && c !in cs && KeepsLinks(f)
    requires RewrittenAt(ns, cur, Below(ns, a, gate, cs), f)
    ensures Subtree(cur, c, gate) == Subtree(ns, c, gate)
    ensures forall x :: x in Subtree(ns, c, gate) ==> cur[x] == ns[x]
  {
    RewrittenLinks(ns, cur, Below(ns, a, gate, cs), f);
    forall y | 0 <= y < |ns| && Reach(ns, c, AnyNode, y)
      ensures cur[y] == ns[y]
    {
      BelowDisjoint(ns, a, gate, cs, c, y);
    }
    forall x ensures Reach(ns, c, gate, x) == Reach(cur, c, gate, x) {
      ReachFrame(ns, cur, c, gate, x);
    }
    forall x | x in Subtree(ns, c, gate) ensures cur[x] == ns[x] {
      ReachAbove(ns, c, gate, x);
    }
  }

  lemma RewriteOne(ns: seq<DependencyNode>, x: nat, f: DependencyNode -> DependencyNode)
    requires x < |ns|
    ensures RewrittenAt(ns, ns[x := f(ns[x])], {x}, f)
  {
  }

  // ---------------------------------------------------------------------------------------
  // propagateScope

  /** `setScope(scope)` as an update. */
  function ScopeSetter(scope: Option<string>): DependencyNode -> DependencyNode {
    (n: DependencyNode) => n.(scope := scope)
  }

  /** The children `propagateScope(node, scope)` descends into: all of them for `test`
      and `provided`, those with no scope or scope `compile` for `runtime`, none otherwise. */
  function ScopeGate(scope: Option<string>): DependencyNode -> bool {
    if scope == Some("test") || scope == Some("provided") then AnyNode
    else if scope == Some("runtime") then CompileOrUnset
    else NoNode
  }

  lemma ScopeSetterKeepsLinks(scope: Option<string>)
    ensures KeepsLinks(ScopeSetter(scope))
  {
  }

  /** `propagateScope(node, scope)`: the node takes the scope, and so does every node a
      descent gated by `ScopeGate(scope)` reaches; the gate reads each child's scope as it
      was before the pass. */
  method PropagateScope(tree: DependencyTree, node: nat, scope: Option<string>)
    requires tree.Valid() && node < |tree.nodes|
    modifies tree
    decreases |tree.nodes| - node
    ensures RewrittenAt(old(tree.nodes), tree.nodes, Subtree(old(tree.nodes), node, ScopeGate(scope)), ScopeSetter(scope))
    ensures tree.Valid()
    ensures old(InCreationOrder(tree.nodes)) ==> InCreationOrder(tree.nodes)
  {
    ghost var ns0 := tree.nodes;
    ghost var gate := ScopeGate(scope);
    ghost var f := ScopeSetter(scope);
    ScopeSetterKeepsLinks(scope);
    tree.SetScope(node, scope);
    ghost var ns1 := tree.nodes;
    RewriteOne(ns0, node, f);
    RewrittenLinks(ns0, ns1, {node}, f);
    var children := tree.nodes[node].children;
    var i := 0;
    while i < |children|
      invariant 0 <= i <= |children|
      invariant RewrittenAt(ns1, tree.nodes, Below(ns1, node, gate, children[..i]), f)
      invariant tree.Valid()
    {
      var child := children[i];
      ghost var cur := tree.nodes;
      assert child !in children[..i];
      RewrittenLinks(ns1, cur, Below(ns1, node, gate, children[..i]), f);
      var childScope := tree.nodes[child].scope;
      if scope == Some("test") || scope == Some("provided") {
        PropagateScope(tree, child, scope);
      } else if scope == Some("runtime") && (childScope.None? || childScope == Some("compile")) {
        PropagateScope(tree, child, scope);
      }
      RewriteStep(ns1, cur, tree.nodes, node, gate, children[..i], child, f);
      TakeNext(children, i);
      i := i + 1;
    }
    TakeAll(children);
    BelowAll(ns1, node, gate);
    RewriteSubtree(ns0, ns1, tree.nodes, node, gate, f);
    RewrittenLinks(ns0, tree.nodes, Subtree(ns0, node, gate), f);
  }

  /** `test` and `provided` reach every descendant. */
  lemma OverridingScopeReachesAll(ns: seq<DependencyNode>, a: nat, scope: Option<string>, x: nat)
    requires scope == Some("test") || scope == Some("provided")
    requires Reach(ns, a, AnyNode, x)
    ensures x in Subtree(ns, a, ScopeGate(scope))
  {
  }

  /** `runtime` leaves alone the whole subtree of a child whose scope is set to something
      other than `compile`, that child included. */
  lemma RuntimeSkipsOtherScopes(ns: seq<DependencyNode>, a: nat, c: nat, x: nat)
    requires Linked(ns) && a < |ns| && c in ns[a].children
    requires ns[c].scope.Some? && ns[c].scope != Some("compile")
    requires Reach(ns, c, AnyNode, x)
    ensures x !in Subtree(ns, a, ScopeGate(Some("runtime")))
  {
    ChildSubtree(ns, a, AnyNode, c, x);
    if x in Subtree(ns, a, CompileOrUnset) {
      ChildTowardFacts(ns, a, CompileOrUnset, x);
    }
  }

  /** `runtime` does reach a subtree hanging from compile-scoped (or unscoped) nodes. */
  lemma RuntimeFollowsCompile(ns: seq<DependencyNode>, a: nat, x: nat)
    requires Reach(ns, a, CompileOrUnset, x)
    ensures x in Subtree(ns, a, ScopeGate(Some("runtime")))
  {
  }

  /** Any other scope, unset included, changes the node alone. */
  lemma OtherScopeOnlyNode(ns: seq<DependencyNode>, a: nat, scope: Option<string>)
    requires a < |ns|
    requires scope != Some("test") && scope != Some("provided") && scope != Some("runtime")
    ensures Subtree(ns, a, ScopeGate(scope)) == {a}
  {
    assert Reach(ns, a, NoNode, a);
  }

  // ---------------------------------------------------------------------------------------
  // propagateManagedVersionNotes

  /** The key `propagateManagedVersionNotes` looks a node up by. */
  function ManagementKey(n: DependencyNode): string {
    n.groupId + ":" + n.artifactId
  }

  /** Whether the management map pins the node to another version. */
  predicate Managed(n: DependencyNode, managedVersions: map<string, string>) {
    ManagementKey(n) in managedVersions && managedVersions[ManagementKey(n)] != n.version
  }

  /** The note one node receives. */
  function ManagedNote(n: DependencyNode, managedVersions: map<string, string>): (r: DependencyNode)
    ensures r == n.(notes := r.notes)
    ensures !Managed(n, managedVersions) ==> r == n
    ensures Managed(n, managedVersions) ==>
      r.notes == AppendNote(n.notes, "version managed from " + managedVersions[ManagementKey(n)])
  {
    if Managed(n, managedVersions) then
      n.(notes := AppendNote(n.notes, "version managed from " + managedVersions[ManagementKey(n)]))
    else n
  }

  function NoteSetter(managedVersions: map<string, string>): DependencyNode -> DependencyNode {
    (n: DependencyNode) => ManagedNote(n, managedVersions)
  }

  lemma NoteSetterKeepsLinks(managedVersions: map<string, string>)
    ensures KeepsLinks(NoteSetter(managedVersions))
  {
  }

  /** The notes of a managed node: the earlier notes, `"; "`, then the note; just the note
      when there were none. An unmanaged node is left as it was. */
  lemma ManagedNoteText(n: DependencyNode, managedVersions: map<string, string>)
    ensures Managed(n, managedVersions) && n.notes.Some? ==>
      ManagedNote(n, managedVersions).notes ==
        Some(n.notes.value + "; version managed from " + managedVersions[ManagementKey(n)])
    ensures Managed(n, managedVersions) && n.notes.None? ==>
      ManagedNote(n, managedVersions).notes ==
        Some("version managed from " + managedVersions[ManagementKey(n)])
    ensures ManagedNote(n, managedVersions) == n <==> !Managed(n, managedVersions)
  {
    if Managed(n, managedVersions) {
      var note := "version managed from " + managedVersions[ManagementKey(n)];
      var r := ManagedNote(n, managedVersions);
      assert r.notes.value[|r.notes.value| - |note|..] == note;
      if n.notes.Some? {
        assert n.notes.value + "; " + note == n.notes.value + "; version managed from " + managedVersions[ManagementKey(n)];
      }
      assert r.notes != n.notes by {
        if n.notes.Some? {
          assert |r.notes.value| > |n.notes.value|;
        }
      }
    }
  }

  /** The loop body's note for one child: `"version managed from X"` appended to its
      notes when the map pins it to another version `X`. */
  method AddManagedNote(tree: DependencyTree, child: nat, managedVersions: map<string, string>)
    requires tree.Valid() && child < |tree.nodes|
    modifies tree
    ensures tree.nodes == old(tree.nodes)[child := ManagedNote(old(tree.nodes[child]), managedVersions)]
    ensures tree.Valid()
  {
    var key := tree.nodes[child].groupId + ":" + tree.nodes[child].artifactId;
    if key in managedVersions && managedVersions[key] != tree.nodes[child].version {
      var note := "version managed from " + managedVersions[key];
      if tree.nodes[child].notes.Some? {
        tree.SetNotes(child, Some(tree.nodes[child].notes.value + "; " + note));
      } else {
        tree.SetNotes(child, Some(note));
      }
    } else {
      assert tree.nodes == old(tree.nodes)[child := old(tree.nodes[child])];
    }
  }

  /** `propagateManagedVersionNotes(node, managedVersions)`: every strict descendant of
      the node receives its managed-version note; the node itself and every other node
      are left as they were. */
  method PropagateManagedVersionNotes(tree: DependencyTree, node: nat, managedVersions: map<string, string>)
    requires tree.Valid() && node < |tree.nodes|
    modifies tree
    decreases |tree.nodes| - node
    ensures RewrittenAt(old(tree.nodes), tree.nodes, Descendants(old(tree.nodes), node, AnyNode), NoteSetter(managedVersions))
    ensures tree.nodes[node] == old(tree.nodes[node])
    ensures tree.Valid()
    ensures old(InCreationOrder(tree.nodes)) ==> InCreationOrder(tree.nodes)
  {
    ghost var ns0 := tree.nodes;
    ghost var f := NoteSetter(managedVersions);
    NoteSetterKeepsLinks(managedVersions);
    var children := tree.nodes[node].children;
    var i := 0;
    while i < |children|
      invariant 0 <= i <= |children|
      invariant RewrittenAt(ns0, tree.nodes, Below(ns0, node, AnyNode, children[..i]), f)
      invariant tree.Valid()
    {
      var child := children[i];
      ghost var cur := tree.nodes;
      assert child !in children[..i];
      RewrittenLinks(ns0, cur, Below(ns0, node, AnyNode, children[..i]), f);
      AddManagedNote(tree, child, managedVersions);
      ghost var mid := tree.nodes;
      RewriteOne(cur, child, f);
      PropagateManagedVersionNotes(tree, child, managedVersions);
      RewriteSubtree(cur, mid, tree.nodes, child, AnyNode, f);
      RewriteStep(ns0, cur, tree.nodes, node, AnyNode, children[..i], child, f);
      TakeNext(children, i);
      i := i + 1;
    }
    TakeAll(children);
    BelowAll(ns0, node, AnyNode);
    RewrittenLinks(ns0, tree.nodes, Descendants(ns0, node, AnyNode), f);
  }
}
