/** `DependencyNode`: one artifact of a dependency tree.

    The Java class is a mutable object with a child list and a parent back-reference. Here
    the objects live in an arena, `DependencyTree.nodes`: a reference to a node is its index
    there, `children` lists indices in insertion order and `parent` is the index of the
    node whose `addChild` adopted it. `null` fields are `None`. */
module DependencyNodes {

  import opened Results
  import opened JavaString

  datatype DependencyNode = DependencyNode(
    groupId: string,
    artifactId: string,
    version: string,
    scope: Option<string>,
    artifactType: Option<string>,
    optional: bool,
    notes: Option<string>,
    omitted: bool,
    omittedReason: Option<string>,
    children: seq<nat>,
    parent: Option<nat>)
  {
    /** `getCoordinates()`: `groupId:artifactId:version`. */
    function Coordinates(): string {
      groupId + ":" + artifactId + ":" + version
    }

    /** `toString()` writes the type: it is set and is not `jar`. */
    predicate TypeShown() {
      artifactType.Some? && artifactType.value != "jar"
    }

    /** `toString()` writes the scope: it is set and is not `compile`. */
    predicate ScopeShown() {
      scope.Some? && scope.value != "compile"
    }

    /** `toString()`: the coordinates, then `:type` unless the type is unset or `jar`,
        then ` (scope)` unless the scope is unset or `compile`, then ` (optional)`. Each
        part is pinned at its offset, and the length adds up to exactly these parts. */
    function ToString(): (r: string)
      ensures StartsWith(r, Coordinates())
      ensures r == Coordinates() <==> !TypeShown() && !ScopeShown() && !optional
      ensures |r| == |Coordinates()| + (if TypeShown() then 1 + |artifactType.value| else 0) +
        (if ScopeShown() then 3 + |scope.value| else 0) + (if optional then 11 else 0)
      ensures TypeShown() <==> |r| > |Coordinates()| && r[|Coordinates()|] == ':'
      ensures TypeShown() ==>
        r[|Coordinates()| + 1..|Coordinates()| + 1 + |artifactType.value|] == artifactType.value
      ensures ScopeShown() ==>
        var at := |Coordinates()| + (if TypeShown() then 1 + |artifactType.value| else 0);
        r[at..at + 3 + |scope.value|] == " (" + scope.value + ")"
      ensures optional ==> |r| >= 11 && r[|r| - 11..] == " (optional)"
    {
      var c := Coordinates();
      var typePart := if TypeShown() then ":" + artifactType.value else "";
      var scopePart := if ScopeShown() then " (" + scope.value + ")" else "";
      var optionalPart := if optional then " (optional)" else "";
      var r := c + typePart + scopePart + optionalPart;
      FourParts(c, typePart, scopePart, optionalPart);
      assert TypeShown() ==> typePart[1..] == artifactType.value;
      r
    }

    /** No identity field contains `':'`, so the coordinates split back into them. */
    predicate ColonFree() {
      ':' !in groupId && ':' !in artifactId && ':' !in version
    }
  }

  /** Where each of four concatenated parts sits in the whole. */
  lemma FourParts(a: string, b: string, c: string, d: string)
    ensures var r := a + b + c + d;
      |r| == |a| + |b| + |c| + |d| && r[..|a|] == a && r[|a|..|a| + |b|] == b &&
      r[|a| + |b|..|a| + |b| + |c|] == c && r[|a| + |b| + |c|..] == d
  {
    var r := a + b + c + d;
    assert r == a + (b + (c + d));
    assert r[|a|..] == b + (c + d);
    assert r[|a| + |b|..] == c + d;
  }

  /** The state `new DependencyNode(groupId, artifactId, version)` leaves a node in. */
  function NewNode(groupId: string, artifactId: string, version: string): DependencyNode {
    DependencyNode(groupId, artifactId, version, None, None, false, None, false, None, [], None)
  }

  /** `getCoordinates()` is undone by `split(":")` when the identity fields are non-empty
      and free of `':'`. */
  lemma CoordinatesSplit(n: DependencyNode)
    requires n.ColonFree() && n.groupId != [] && n.artifactId != [] && n.version != []
    ensures JavaSplit(n.Coordinates(), ':') == [n.groupId, n.artifactId, n.version]
  {
    var ps := [n.groupId, n.artifactId, n.version];
    assert Join(ps[2..], ':') == n.version;
    assert Join(ps[1..], ':') == n.artifactId + ":" + n.version;
    assert Join(ps, ':') == n.Coordinates();
    SplitOfJoin(ps, ':');
  }

  /** The arena is a forest: every child lies after its parent and names it as its parent,
      every parent lists its child, and no child list repeats an entry. */
  ghost predicate Linked(ns: seq<DependencyNode>) {
    && (forall i, k :: 0 <= i < |ns| && 0 <= k < |ns[i].children| ==>
          i < ns[i].children[k] < |ns| && ns[ns[i].children[k]].parent == Some(i))
    && (forall x :: 0 <= x < |ns| && ns[x].parent.Some? ==>
          ns[x].parent.value < x && x in ns[ns[x].parent.value].children)
    && (forall i, k, l :: 0 <= i < |ns| && 0 <= k < l < |ns[i].children| ==>
          ns[i].children[k] != ns[i].children[l])
  }

  /** Every child list is in creation order, which for a parsed tree is document order. */
  ghost predicate InCreationOrder(ns: seq<DependencyNode>) {
    forall i, k, l :: 0 <= i < |ns| && 0 <= k < l < |ns[i].children| ==>
      ns[i].children[k] < ns[i].children[l]
  }

  /** Two arenas with the same links: setters other than `setChildren`/`setParent` keep it. */
  ghost predicate SameLinks(ns: seq<DependencyNode>, ms: seq<DependencyNode>) {
    |ns| == |ms| &&
    forall x :: 0 <= x < |ns| ==> ns[x].children == ms[x].children && ns[x].parent == ms[x].parent
  }

  lemma SameLinksLinked(ns: seq<DependencyNode>, ms: seq<DependencyNode>)
    requires SameLinks(ns, ms) && Linked(ns)
    ensures Linked(ms)
  {
  }

  /** The arena after `addChild(child)` on node `id`. */
  function Adopt(ns: seq<DependencyNode>, id: nat, child: nat): seq<DependencyNode>
    requires id < |ns| && child < |ns|
  {
    var adopted := ns[child := ns[child].(parent := Some(id))];
    adopted[id := adopted[id].(children := adopted[id].children + [child])]
  }

  /** What `Adopt` changes: one child list grows by `child`, one parent field is set. */
  lemma AdoptShape(ns: seq<DependencyNode>, id: nat, child: nat)
    requires id < |ns| && child < |ns|
    ensures |Adopt(ns, id, child)| == |ns|
    ensures Adopt(ns, id, child)[id].children == ns[id].children + [child]
    ensures forall i :: 0 <= i < |ns| && i != id ==> Adopt(ns, id, child)[i].children == ns[i].children
    ensures Adopt(ns, id, child)[child].parent == Some(id)
    ensures forall i :: 0 <= i < |ns| && i != child ==> Adopt(ns, id, child)[i].parent == ns[i].parent
  {
  }

  lemma AdoptLinked(ns: seq<DependencyNode>, id: nat, child: nat)
    requires id < child < |ns| && Linked(ns) && ns[child].parent.None?
    ensures Linked(Adopt(ns, id, child))
  {
    var ms := Adopt(ns, id, child);
    AdoptShape(ns, id, child);
    forall i, k | 0 <= i < |ms| && 0 <= k < |ms[i].children|
      ensures i < ms[i].children[k] < |ms| && ms[ms[i].children[k]].parent == Some(i)
    {
      if i == id && k == |ns[id].children| {
        assert ms[i].children[k] == child;
      } else {
        assert ms[i].children[k] == ns[i].children[k];
        assert ns[ns[i].children[k]].parent == Some(i);
      }
    }
    forall x | 0 <= x < |ms| && ms[x].parent.Some?
      ensures ms[x].parent.value < x && x in ms[ms[x].parent.value].children
    {
      if x != child {
        var p := ns[x].parent.value;
        assert x in ns[p].children;
        assert x in ms[p].children;
      }
    }
    forall i, k, l | 0 <= i < |ms| && 0 <= k < l < |ms[i].children|
      ensures ms[i].children[k] != ms[i].children[l]
    {
      if i == id && l == |ns[id].children| {
        assert ms[i].children[k] == ns[i].children[k];
        assert ns[ns[i].children[k]].parent == Some(i);
      } else {
        assert ms[i].children[k] == ns[i].children[k];
        assert ms[i].children[l] == ns[i].children[l];
      }
    }
  }

  lemma AdoptInCreationOrder(ns: seq<DependencyNode>, id: nat, child: nat)
    requires id < |ns| && child < |ns| && InCreationOrder(ns)
    requires forall c :: c in ns[id].children ==> c < child
    ensures InCreationOrder(Adopt(ns, id, child))
  {
    var ms := Adopt(ns, id, child);
    AdoptShape(ns, id, child);
    forall i, k, l | 0 <= i < |ms| && 0 <= k < l < |ms[i].children|
      ensures ms[i].children[k] < ms[i].children[l]
    {
      if i == id && l == |ns[id].children| {
        assert ms[i].children[k] == ns[i].children[k];
        assert ns[i].children[k] in ns[id].children;
      } else {
        assert ms[i].children[k] == ns[i].children[k];
        assert ms[i].children[l] == ns[i].children[l];
      }
    }
  }

  /** The heap of `DependencyNode` objects. */
  class DependencyTree {
    var nodes: seq<DependencyNode>

    ghost predicate Valid()
      reads this
    {
      Linked(nodes)
    }

    constructor ()
      ensures nodes == [] && Valid()
    {
      nodes := [];
    }

    /** `new DependencyNode(groupId, artifactId, version)`. */
    method New(groupId: string, artifactId: string, version: string) returns (id: nat)
      modifies this
      ensures id == |old(nodes)|
      ensures nodes == old(nodes) + [DependencyNode(groupId, artifactId, version, None, None, false, None, false, None, [], None)]
      ensures old(Valid()) ==> Valid()
      ensures old(InCreationOrder(nodes)) ==> InCreationOrder(nodes)
    {
      id := |nodes|;
      nodes := nodes + [NewNode(groupId, artifactId, version)];
    }

    /** `new DependencyNode(groupId, artifactId, version, scope, type, optional)`. */
    method NewWith(groupId: string, artifactId: string, version: string,
                   scope: Option<string>, artifactType: Option<string>, optional: bool)
      returns (id: nat)
      modifies this
      ensures id == |old(nodes)|
      ensures nodes == old(nodes) + [DependencyNode(groupId, artifactId, version, scope, artifactType, optional, None, false, None, [], None)]
      ensures old(Valid()) ==> Valid()
    {
      id := |nodes|;
      nodes := nodes + [DependencyNode(groupId, artifactId, version, scope, artifactType, optional, None, false, None, [], None)];
    }

    method SetGroupId(id: nat, groupId: string)
      requires id < |nodes|
      modifies this
      ensures nodes == old(nodes)[id := old(nodes[id]).(groupId := groupId)]
      ensures old(Valid()) ==> Valid()
    {
      nodes := nodes[id := nodes[id].(groupId := groupId)];
      assert SameLinks(old(nodes), nodes);
    }

    method SetArtifactId(id: nat, artifactId: string)
      requires id < |nodes|
      modifies this
      ensures nodes == old(nodes)[id := old(nodes[id]).(artifactId := artifactId)]
      ensures old(Valid()) ==> Valid()
    {
      nodes := nodes[id := nodes[id].(artifactId := artifactId)];
      assert SameLinks(old(nodes), nodes);
    }

    method SetVersion(id: nat, version: string)
      requires id < |nodes|
      modifies this
      ensures nodes == old(nodes)[id := old(nodes[id]).(version := version)]
      ensures old(Valid()) ==> Valid()
    {
      nodes := nodes[id := nodes[id].(version := version)];
      assert SameLinks(old(nodes), nodes);
    }

    method SetScope(id: nat, scope: Option<string>)
      requires id < |nodes|
      modifies this
      ensures nodes == old(nodes)[id := old(nodes[id]).(scope := scope)]
      ensures old(Valid()) ==> Valid()
      ensures old(InCreationOrder(nodes)) ==> InCreationOrder(nodes)
    {
      nodes := nodes[id := nodes[id].(scope := scope)];
      assert SameLinks(old(nodes), nodes);
    }

    method SetType(id: nat, artifactType: Option<string>)
      requires id < |nodes|
      modifies this
      ensures nodes == old(nodes)[id := old(nodes[id]).(artifactType := artifactType)]
      ensures old(Valid()) ==> Valid()
    {
      nodes := nodes[id := nodes[id].(artifactType := artifactType)];
      assert SameLinks(old(nodes), nodes);
    }

    method SetOptional(id: nat, optional: bool)
      requires id < |nodes|
      modifies this
      ensures nodes == old(nodes)[id := old(nodes[id]).(optional := optional)]
      ensures old(Valid()) ==> Valid()
      ensures old(InCreationOrder(nodes)) ==> InCreationOrder(nodes)
    {
      nodes := nodes[id := nodes[id].(optional := optional)];
      assert SameLinks(old(nodes), nodes);
    }

    method SetNotes(id: nat, notes: Option<string>)
      requires id < |nodes|
      modifies this
      ensures nodes == old(nodes)[id := old(nodes[id]).(notes := notes)]
      ensures old(Valid()) ==> Valid()
      ensures old(InCreationOrder(nodes)) ==> InCreationOrder(nodes)
    {
      nodes := nodes[id := nodes[id].(notes := notes)];
      assert SameLinks(old(nodes), nodes);
    }

    method SetOmitted(id: nat, omitted: bool)
      requires id < |nodes|
      modifies this
      ensures nodes == old(nodes)[id := old(nodes[id]).(omitted := omitted)]
      ensures old(Valid()) ==> Valid()
      ensures old(InCreationOrder(nodes)) ==> InCreationOrder(nodes)
    {
      nodes := nodes[id := nodes[id].(omitted := omitted)];
      assert SameLinks(old(nodes), nodes);
    }

    method SetOmittedReason(id: nat, omittedReason: Option<string>)
      requires id < |nodes|
      modifies this
      ensures nodes == old(nodes)[id := old(nodes[id]).(omittedReason := omittedReason)]
      ensures old(Valid()) ==> Valid()
      ensures old(InCreationOrder(nodes)) ==> InCreationOrder(nodes)
    {
      nodes := nodes[id := nodes[id].(omittedReason := omittedReason)];
      assert SameLinks(old(nodes), nodes);
    }

    /** `setChildren`: replaces the list without touching the new children's parents, so
        it can break `Valid()`. */
    method SetChildren(id: nat, children: seq<nat>)
      requires id < |nodes|
      modifies this
      ensures nodes == old(nodes)[id := old(nodes[id]).(children := children)]
    {
      nodes := nodes[id := nodes[id].(children := children)];
    }

    /** `setParent`: sets the back-reference alone, so it can break `Valid()`. */
    method SetParent(id: nat, parent: Option<nat>)
      requires id < |nodes|
      modifies this
      ensures nodes == old(nodes)[id := old(nodes[id]).(parent := parent)]
    {
      nodes := nodes[id := nodes[id].(parent := parent)];
    }

    /** `addChild(child)` on node `id`: the child's parent becomes `id` (first), then the
        child is appended to `id`'s list, so earlier children keep their places. Adopting
        a later, parentless node keeps the arena a forest, and in creation order when the
        child comes after every earlier child. */
    method AddChild(id: nat, child: nat)
      requires id < |nodes| && child < |nodes|
      modifies this
      ensures |nodes| == |old(nodes)|
      ensures nodes[child].parent == Some(id)
      ensures nodes[id].children == old(nodes[id].children) + [child]
      ensures id != child ==>
        nodes[id] == old(nodes[id]).(children := old(nodes[id].children) + [child]) &&
        nodes[child] == old(nodes[child]).(parent := Some(id))
      ensures id == child ==>
        nodes[id] == old(nodes[id]).(children := old(nodes[id].children) + [child], parent := Some(id))
      ensures forall x :: 0 <= x < |nodes| && x != id && x != child ==> nodes[x] == old(nodes[x])
      ensures old(Valid()) && old(nodes[child].parent).None? && id < child ==> Valid()
      ensures old(InCreationOrder(nodes)) && (forall c :: c in old(nodes[id].children) ==> c < child) ==> InCreationOrder(nodes)
    {
      var adopted := nodes[child := nodes[child].(parent := Some(id))];
      nodes := adopted[id := adopted[id].(children := adopted[id].children + [child])];
      assert nodes == Adopt(old(nodes), id, child);
      if old(Valid()) && old(nodes[child].parent).None? && id < child {
        AdoptLinked(old(nodes), id, child);
      }
      if old(InCreationOrder(nodes)) && (forall c :: c in old(nodes[id].children) ==> c < child) {
        AdoptInCreationOrder(old(nodes), id, child);
      }
    }
  }
}
