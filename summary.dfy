/** The counters of the summary line under the tree view (`SummarySection` in the main
    view): how many dependencies hang below the root, how many per scope, how many are
    optional, and how many bytes each scope accounts for. Each walks the children of a
    node and recurses, so the node it starts from is never counted. */
module Summary {

  import opened Results
  import opened DependencyNodes
  import opened TreeFacts
  import opened ArtifactSizes

  function HasScope(scope: string): DependencyNode -> bool {
    (n: DependencyNode) => n.scope == Some(scope)
  }

  predicate IsOptional(n: DependencyNode) { n.optional }

  /** The weight `calculateSizeByScope(node, scope)` sums: a node's size when its scope
      is `scope`, else 0. */
  function ScopedSize(scope: string, lookup: (string, string, string) -> int): DependencyNode -> int {
    (n: DependencyNode) => if n.scope == Some(scope) then lookup(n.groupId, n.artifactId, n.version) else 0
  }

  /** `countAllDependencies(node)`: the number of strict descendants. */
  method CountAllDependencies(tree: DependencyTree, node: nat) returns (count: int)
    requires tree.Valid() && node < |tree.nodes|
    decreases |tree.nodes| - node
    ensures count == |Descendants(tree.nodes, node, AnyNode)|
  {
    ghost var ns := tree.nodes;
    count := 0;
    BelowNoneSum(ns, node, AnyNode, One);
    var children := tree.nodes[node].children;
    var i := 0;
    while i < |children|
      invariant 0 <= i <= |children|
      invariant count == Sum(ns, Below(ns, node, AnyNode, children[..i]), One)
    {
      var child := children[i];
      assert child !in children[..i];
      count := count + 1;
      var sub := CountAllDependencies(tree, child);
      SumOneIsCard(ns, Descendants(ns, child, AnyNode));
      count := count + sub;
      BelowSum(ns, node, AnyNode, children[..i], child, One);
      TakeNext(children, i);
      i := i + 1;
    }
    TakeAll(children);
    BelowAll(ns, node, AnyNode);
    SumOneIsCard(ns, Descendants(ns, node, AnyNode));
  }

  /** `countByScope(node, scope)`: the number of strict descendants whose scope is
      `scope`. */
  method CountByScope(tree: DependencyTree, node: nat, scope: string) returns (count: int)
    requires tree.Valid() && node < |tree.nodes|
    decreases |tree.nodes| - node
    ensures count == |Where(tree.nodes, Descendants(tree.nodes, node, AnyNode), HasScope(scope))|
  {
    ghost var ns := tree.nodes;
    ghost var w := Indicator(HasScope(scope));
    count := 0;
    BelowNoneSum(ns, node, AnyNode, w);
    var children := tree.nodes[node].children;
    var i := 0;
    while i < |children|
      invariant 0 <= i <= |children|
      invariant count == Sum(ns, Below(ns, node, AnyNode, children[..i]), w)
    {
      var child := children[i];
      assert child !in children[..i];
      if Some(scope) == tree.nodes[child].scope {
        count := count + 1;
      }
      var sub := CountByScope(tree, child, scope);
      SumIndicator(ns, Descendants(ns, child, AnyNode), HasScope(scope));
      count := count + sub;
      BelowSum(ns, node, AnyNode, children[..i], child, w);
      TakeNext(children, i);
      i := i + 1;
    }
    TakeAll(children);
    BelowAll(ns, node, AnyNode);
    SumIndicator(ns, Descendants(ns, node, AnyNode), HasScope(scope));
  }

  /** `countOptionalDependencies(node)`: the number of strict descendants marked
      optional. */
  method CountOptionalDependencies(tree: DependencyTree, node: nat) returns (count: int)
    requires tree.Valid() && node < |tree.nodes|
    decreases |tree.nodes| - node
    ensures count == |Where(tree.nodes, Descendants(tree.nodes, node, AnyNode), IsOptional)|
  {
    ghost var ns := tree.nodes;
    ghost var w := Indicator(IsOptional);
    count := 0;
    BelowNoneSum(ns, node, AnyNode, w);
    var children := tree.nodes[node].children;
    var i := 0;
    while i < |children|
      invariant 0 <= i <= |children|
      invariant count == Sum(ns, Below(ns, node, AnyNode, children[..i]), w)
    {
      var child := children[i];
      assert child !in children[..i];
      if tree.nodes[child].optional {
        count := count + 1;
      }
      var sub := CountOptionalDependencies(tree, child);
      SumIndicator(ns, Descendants(ns, child, AnyNode), IsOptional);
      count := count + sub;
      BelowSum(ns, node, AnyNode, children[..i], child, w);
      TakeNext(children, i);
      i := i + 1;
    }
    TakeAll(children);
    BelowAll(ns, node, AnyNode);
    SumIndicator(ns, Descendants(ns, node, AnyNode), IsOptional);
  }

  /** `calculateSizeByScope(node, scope)`: the sizes of the strict descendants with scope
      `scope` that a descent skipping omitted children reaches. The cache keeps every
      entry it had and gains exactly the keys of the nodes summed. */
  method CalculateSizeByScope(service: SizeService, tree: DependencyTree, node: nat, scope: string)
    returns (size: int)
    requires service.Valid() && tree.Valid() && node < |tree.nodes|
    requires forall x :: 0 <= x < |tree.nodes| ==> tree.nodes[x].ColonFree()
    modifies service
    decreases |tree.nodes| - node, 1
    ensures service.Valid()
    ensures size == Sum(tree.nodes, Descendants(tree.nodes, node, NotOmitted), ScopedSize(scope, service.lookup))
    ensures KeptIn(old(service.sizeCache), service.sizeCache)
    ensures service.sizeCache.Keys == old(service.sizeCache).Keys +
      KeysOf(tree.nodes, Where(tree.nodes, Descendants(tree.nodes, node, NotOmitted), HasScope(scope)))
  {
    ghost var ns := tree.nodes;
    ghost var w := ScopedSize(scope, service.lookup);
    ghost var p := HasScope(scope);
    ghost var c0 := service.sizeCache;
    size := 0;
    BelowNoneSum(ns, node, NotOmitted, w);
    NoKeysBelowNone(ns, node, NotOmitted, p);
    var children := tree.nodes[node].children;
    var i := 0;
    while i < |children|
      invariant 0 <= i <= |children|
      invariant service.Valid()
      invariant size == Sum(ns, Below(ns, node, NotOmitted, children[..i]), w)
      invariant KeptIn(c0, service.sizeCache)
      invariant service.sizeCache.Keys == c0.Keys + KeysOf(ns, Where(ns, Below(ns, node, NotOmitted, children[..i]), p))
    {
      var child := children[i];
      assert child !in children[..i];
      ghost var before := KeysOf(ns, Where(ns, Below(ns, node, NotOmitted, children[..i]), p));
      ghost var mid := service.sizeCache;
      BelowSum(ns, node, NotOmitted, children[..i], child, w);
      ScopedKeysStep(ns, node, NotOmitted, children[..i], child, p);
      TakeNext(children, i);
      var sub := ChildSizeByScope(service, tree, node, i, scope);
      size := size + sub;
      i := i + 1;
      KeptInTransitive(c0, mid, service.sizeCache);
      UnionChain(c0.Keys, mid.Keys, service.sizeCache.Keys, before,
        if NotOmitted(ns[child]) then KeysOf(ns, Where(ns, {child}, p)) + KeysOf(ns, Where(ns, Descendants(ns, child, NotOmitted), p)) else {});
    }
    TakeAll(children);
    BelowAll(ns, node, NotOmitted);
  }

  /** The loop body of `calculateSizeByScope` for child `i` of `node`: nothing for an
      omitted child (`continue`); otherwise the child's size when its scope is `scope`,
      plus the recursive total below it. */
  method ChildSizeByScope(service: SizeService, tree: DependencyTree, node: nat, i: nat, scope: string)
    returns (sub: int)
    requires service.Valid() && tree.Valid() && node < |tree.nodes| && i < |tree.nodes[node].children|
    requires forall x :: 0 <= x < |tree.nodes| ==> tree.nodes[x].ColonFree()
    modifies service
    decreases |tree.nodes| - node, 0
    ensures service.Valid()
    ensures var c := tree.nodes[node].children[i];
      var w := ScopedSize(scope, service.lookup);
      sub == (if NotOmitted(tree.nodes[c]) then w(tree.nodes[c]) + Sum(tree.nodes, Descendants(tree.nodes, c, NotOmitted), w) else 0)
    ensures KeptIn(old(service.sizeCache), service.sizeCache)
    ensures var c := tree.nodes[node].children[i];
      var p := HasScope(scope);
      service.sizeCache.Keys == old(service.sizeCache).Keys +
        (if NotOmitted(tree.nodes[c]) then
           KeysOf(tree.nodes, Where(tree.nodes, {c}, p)) + KeysOf(tree.nodes, Where(tree.nodes, Descendants(tree.nodes, c, NotOmitted), p))
         else {})
  {
    ghost var ns := tree.nodes;
    ghost var p := HasScope(scope);
    var child := tree.nodes[node].children[i];
    assert tree.nodes[child].parent == Some(node);
    sub := 0;
    if tree.nodes[child].omitted {
      return;
    }
    var c := tree.nodes[child];
    ghost var k0 := service.sizeCache;
    WhereOneKeys(ns, child, p);
    if Some(scope) == c.scope {
      var s := service.GetArtifactSize(c.groupId, c.artifactId, c.version);
      CachePut(k0, CacheKey(c.groupId, c.artifactId, c.version), s);
      sub := s;
    }
    ghost var k1 := service.sizeCache;
    var below := CalculateSizeByScope(service, tree, child, scope);
    sub := sub + below;
    KeptInTransitive(k0, k1, service.sizeCache);
    UnionChain(k0.Keys, k1.Keys, service.sizeCache.Keys, KeysOf(ns, Where(ns, {child}, p)),
      KeysOf(ns, Where(ns, Descendants(ns, child, NotOmitted), p)));
  }

  lemma NoKeysBelowNone(ns: seq<DependencyNode>, a: nat, gate: DependencyNode -> bool, p: DependencyNode -> bool)
    ensures KeysOf(ns, Where(ns, Below(ns, a, gate, []), p)) == {}
  {
    assert Below(ns, a, gate, []) == {};
    assert Where(ns, {}, p) == {};
  }

  lemma WhereUnion(ns: seq<DependencyNode>, xs: set<nat>, ys: set<nat>, p: DependencyNode -> bool)
    ensures Where(ns, xs + ys, p) == Where(ns, xs, p) + Where(ns, ys, p)
  {
  }

  /** The key of one node, when it satisfies `p`. */
  lemma WhereOneKeys(ns: seq<DependencyNode>, c: nat, p: DependencyNode -> bool)
    requires c < |ns|
    ensures KeysOf(ns, Where(ns, {c}, p)) ==
      (if p(ns[c]) then {CacheKey(ns[c].groupId, ns[c].artifactId, ns[c].version)} else {})
  {
    assert Where(ns, {c}, p) == (if p(ns[c]) then {c} else {});
  }

  /** One more child `c` of `a`: the keys of its scoped nodes join, when the gate lets the
      descent into `c`. */
  lemma ScopedKeysStep(ns: seq<DependencyNode>, a: nat, gate: DependencyNode -> bool, cs: seq<nat>,
                       c: nat, p: DependencyNode -> bool)
    requires Linked(ns) && a < |ns| && c in ns[a].children
    ensures KeysOf(ns, Where(ns, Below(ns, a, gate, cs + [c]), p)) ==
      KeysOf(ns, Where(ns, Below(ns, a, gate, cs), p)) +
      (if gate(ns[c]) then KeysOf(ns, Where(ns, {c}, p)) + KeysOf(ns, Where(ns, Descendants(ns, c, gate), p)) else {})
  {
    BelowStep(ns, a, gate, cs, c);
    var b := Below(ns, a, gate, cs);
    if gate(ns[c]) {
      SubtreeSplit(ns, c, gate, One);
      var d := Descendants(ns, c, gate);
      WhereUnion(ns, b, {c} + d, p);
      WhereUnion(ns, {c}, d, p);
      KeysOfUnion(ns, Where(ns, b, p), Where(ns, {c}, p) + Where(ns, d, p));
      KeysOfUnion(ns, Where(ns, {c}, p), Where(ns, d, p));
    } else {
      assert b + {} == b;
    }
  }
}
