/** The filters of the tree view: `matchesFilters`, `hasMatchingChildren` and
    `filterDependencyTree`. A node is shown when it matches the filters or when some node
    below it does, so that the path to every match stays visible. */
module TreeView {

  import opened Results
  import opened JavaString
  import opened DependencyNodes
  import opened TreeFacts

  /** The filter settings: the search text, the scope chosen (`"All"` or unset means
      every scope), and whether optional and omitted dependencies are shown. */
  datatype Filters = Filters(searchText: Option<string>, scope: Option<string>,
                             showOptionals: bool, showOmitted: bool)

  /** The text filter: a search text that is unset or blank after `trim` accepts every
      node; otherwise the lower-cased coordinates must contain the lower-cased text (the
      text itself, not its trimmed form). */
  predicate TextMatches(n: DependencyNode, searchText: Option<string>) {
    searchText.None? || Trim(searchText.value) == [] ||
    Contains(ToLower(n.Coordinates()), ToLower(searchText.value))
  }

  /** `matchesFilters(node, searchText, scope, showOptionals, showOmitted)`. */
  predicate MatchesFilters(n: DependencyNode, f: Filters) {
    && TextMatches(n, f.searchText)
    && (f.scope.None? || f.scope == Some("All") || f.scope == n.scope)
    && (f.showOptionals || !n.optional)
    && (f.showOmitted || !n.omitted)
  }

  /** With every filter open, every node matches. */
  lemma OpenFiltersMatchAll(n: DependencyNode, searchText: Option<string>)
    requires searchText.None? || Trim(searchText.value) == []
    ensures MatchesFilters(n, Filters(searchText, Some("All"), true, true))
    ensures MatchesFilters(n, Filters(searchText, None, true, true))
  {
  }

  /** A node hidden by the optional or the omitted switch stays hidden whatever the text
      and scope filters say; a chosen scope other than `"All"` admits only that scope. */
  lemma SwitchesAndScopeReject(n: DependencyNode, f: Filters)
    ensures !f.showOptionals && n.optional ==> !MatchesFilters(n, f)
    ensures !f.showOmitted && n.omitted ==> !MatchesFilters(n, f)
    ensures MatchesFilters(n, f) && f.scope.Some? && f.scope != Some("All") ==> n.scope == f.scope
  {
  }

  /** Lower-casing keeps a substring a substring. */
  lemma ToLowerContains(s: string, t: string)
    requires Contains(s, t)
    ensures Contains(ToLower(s), ToLower(t))
  {
    ContainsMatch(s, t);
    var k :| MatchAt(s, t, k);
    ToLowerMatch(s, t, k);
    ContainsMatch(ToLower(s), ToLower(t));
  }

  /** A substring of blank text is blank. */
  lemma BlankContains(s: string, t: string)
    requires Contains(s, t) && Trim(s) == []
    ensures Trim(t) == []
  {
    ContainsMatch(s, t);
    var k :| MatchAt(s, t, k);
    TrimFacts(s);
    TrimFacts(t);
    forall i | 0 <= i < |t| ensures IsTrimmed(t[i]) {
      assert t[i] == s[k..k + |t|][i] == s[k + i];
    }
  }

  /** Narrowing the search: a node found with a longer search text is found with any
      non-blank part of it. */
  lemma SearchNarrowing(n: DependencyNode, longer: string, shorter: string)
    requires Contains(longer, shorter) && Trim(shorter) != []
    requires TextMatches(n, Some(longer))
    ensures TextMatches(n, Some(shorter))
  {
    if Trim(longer) == [] {
      BlankContains(longer, shorter);
    } else {
      ToLowerContains(longer, shorter);
      ContainsTransitive(ToLower(n.Coordinates()), ToLower(longer), ToLower(shorter));
    }
  }

  /** `hasMatchingChildren(node, …)`: some child matches or has a matching child; false
      for a childless node. */
  predicate HasMatchingChildren(ns: seq<DependencyNode>, x: nat, f: Filters)
    requires Linked(ns) && x < |ns|
    decreases |ns| - x, 0
  {
    exists k :: 0 <= k < |ns[x].children| && Shown(ns, ns[x].children[k], f)
  }

  /** The condition `filterDependencyTree` keeps a node on. */
  predicate Shown(ns: seq<DependencyNode>, x: nat, f: Filters)
    requires Linked(ns) && x < |ns|
    decreases |ns| - x, 1
  {
    MatchesFilters(ns[x], f) || HasMatchingChildren(ns, x, f)
  }

  /** `hasMatchingChildren` holds exactly when some strict descendant matches. */
  lemma HasMatchingChildrenIff(ns: seq<DependencyNode>, x: nat, f: Filters)
    requires Linked(ns) && x < |ns|
    ensures HasMatchingChildren(ns, x, f) <==>
      exists y :: y in Descendants(ns, x, AnyNode) && MatchesFilters(ns[y], f)
  {
    if HasMatchingChildren(ns, x, f) {
      MatchingChildrenFound(ns, x, f);
    }
    if exists y :: y in Descendants(ns, x, AnyNode) && MatchesFilters(ns[y], f) {
      var y :| y in Descendants(ns, x, AnyNode) && MatchesFilters(ns[y], f);
      MatchFoundInChildren(ns, x, f, y);
    }
  }

  lemma {:induction false} MatchingChildrenFound(ns: seq<DependencyNode>, x: nat, f: Filters)
    requires Linked(ns) && x < |ns| && HasMatchingChildren(ns, x, f)
    decreases |ns| - x
    ensures exists y :: y in Descendants(ns, x, AnyNode) && MatchesFilters(ns[y], f)
  {
    var k :| 0 <= k < |ns[x].children| && Shown(ns, ns[x].children[k], f);
    var c := ns[x].children[k];
    var y := c;
    if !MatchesFilters(ns[c], f) {
      MatchingChildrenFound(ns, c, f);
      y :| y in Descendants(ns, c, AnyNode) && MatchesFilters(ns[y], f);
    } else {
      assert Reach(ns, c, AnyNode, c);
    }
    ChildSubtree(ns, x, AnyNode, c, y);
    assert y in Descendants(ns, x, AnyNode);
  }

  lemma {:induction false} MatchFoundInChildren(ns: seq<DependencyNode>, x: nat, f: Filters, y: nat)
    requires Linked(ns) && x < |ns| && y in Descendants(ns, x, AnyNode) && MatchesFilters(ns[y], f)
    decreases |ns| - x
    ensures HasMatchingChildren(ns, x, f)
  {
    ChildTowardFacts(ns, x, AnyNode, y);
    var c := ChildToward(ns, x, y);
    var k :| 0 <= k < |ns[x].children| && ns[x].children[k] == c;
    if y != c {
      assert y in Descendants(ns, c, AnyNode);
      MatchFoundInChildren(ns, c, f, y);
    }
    assert Shown(ns, ns[x].children[k], f);
  }

  /** A childless node has no matching children. */
  lemma ChildlessHasNoMatch(ns: seq<DependencyNode>, x: nat, f: Filters)
    requires Linked(ns) && x < |ns| && ns[x].children == []
    ensures !HasMatchingChildren(ns, x, f)
  {
  }

  /** The stream filter over a list of nodes, in list order. */
  function FilterList(ns: seq<DependencyNode>, xs: seq<nat>, f: Filters): (r: seq<nat>)
    requires Linked(ns) && forall i :: 0 <= i < |xs| ==> xs[i] < |ns|
    ensures |r| <= |xs|
    ensures forall y :: y in r <==> y in xs && y < |ns| && Shown(ns, y, f)
  {
    if xs == [] then []
    else (if Shown(ns, xs[0], f) then [xs[0]] else []) + FilterList(ns, xs[1..], f)
  }

  /** `filterDependencyTree(nodes, …)`: a `null` list gives an empty one. */
  function FilterDependencyTree(ns: seq<DependencyNode>, nodes: Option<seq<nat>>, f: Filters): (r: seq<nat>)
    requires Linked(ns) && (nodes.Some? ==> forall i :: 0 <= i < |nodes.value| ==> nodes.value[i] < |ns|)
    ensures nodes.None? ==> r == []
  {
    if nodes.None? then [] else FilterList(ns, nodes.value, f)
  }

  /** A node is kept exactly when it is listed and it, or some node below it, matches. */
  lemma FilterDependencyTreeKeeps(ns: seq<DependencyNode>, nodes: seq<nat>, f: Filters, y: nat)
    requires Linked(ns) && forall i :: 0 <= i < |nodes| ==> nodes[i] < |ns|
    ensures y in FilterDependencyTree(ns, Some(nodes), f) <==>
      y in nodes &&
      (MatchesFilters(ns[y], f) || exists z :: z in Descendants(ns, y, AnyNode) && MatchesFilters(ns[z], f))
  {
    if y in nodes {
      HasMatchingChildrenIff(ns, y, f);
    }
  }

  /** The filter works element by element: filtering two lists one after the other gives
      the two filtered lists one after the other, so relative order is kept. */
  lemma {:induction false} FilterListAppend(ns: seq<DependencyNode>, xs: seq<nat>, ys: seq<nat>, f: Filters)
    requires Linked(ns)
    requires forall i :: 0 <= i < |xs| ==> xs[i] < |ns|
    requires forall i :: 0 <= i < |ys| ==> ys[i] < |ns|
    ensures FilterList(ns, xs + ys, f) == FilterList(ns, xs, f) + FilterList(ns, ys, f)
  {
    if xs == [] {
      assert xs + ys == ys;
    } else {
      var zs := xs + ys;
      assert zs[0] == xs[0];
      assert zs[1..] == xs[1..] + ys;
      FilterListAppend(ns, xs[1..], ys, f);
      var head := if Shown(ns, xs[0], f) then [xs[0]] else [];
      var a, b := FilterList(ns, xs[1..], f), FilterList(ns, ys, f);
      assert FilterList(ns, zs, f) == head + (a + b);
      assert head + (a + b) == (head + a) + b;
    }
  }

  predicate Increasing(xs: seq<nat>) {
    forall i, j :: 0 <= i < j < |xs| ==> xs[i] < xs[j]
  }

  /** The filter keeps the list's order: an increasing list, such as a child list of a
      parsed tree, stays increasing. */
  lemma {:induction false} FilterListInOrder(ns: seq<DependencyNode>, xs: seq<nat>, f: Filters)
    requires Linked(ns) && forall i :: 0 <= i < |xs| ==> xs[i] < |ns|
    requires Increasing(xs)
    ensures Increasing(FilterList(ns, xs, f))
  {
    if xs != [] {
      assert Increasing(xs[1..]);
      FilterListInOrder(ns, xs[1..], f);
      var rest := FilterList(ns, xs[1..], f);
      forall y | y in rest ensures xs[0] < y {
        var j :| 0 <= j < |xs[1..]| && xs[1..][j] == y;
        assert xs[j + 1] == y;
      }
      if Shown(ns, xs[0], f) {
        PrependIncreasing(xs[0], rest);
      }
    }
  }

  /** A number below every element of an increasing list can go in front of it. */
  lemma PrependIncreasing(x: nat, rest: seq<nat>)
    requires Increasing(rest) && forall y :: y in rest ==> x < y
    ensures Increasing([x] + rest)
  {
    var r := [x] + rest;
    forall i, j | 0 <= i < j < |r| ensures r[i] < r[j] {
      assert r[j] == rest[j - 1] && rest[j - 1] in rest;
      if 0 < i {
        assert r[i] == rest[i - 1];
      }
    }
  }

  /** Filtering the children of a node of an arena in creation order keeps them in
      creation order. */
  lemma FilterChildrenInOrder(ns: seq<DependencyNode>, x: nat, f: Filters)
    requires Linked(ns) && InCreationOrder(ns) && x < |ns|
    ensures Increasing(FilterDependencyTree(ns, Some(ns[x].children), f))
  {
    FilterListInOrder(ns, ns[x].children, f);
  }
}
