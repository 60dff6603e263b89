/** Subtrees of a linked arena, and sums over sets of its nodes.

    The recursive Java passes (`propagateScope`, `calculateTotalSize`, the summary counters)
    descend from a node into those children that pass a test, and into those children's
    children under the same test. `Reach(ns, a, gate, x)` says that x is visited by such a
    descent from a: walking from x up the parent references reaches a, and every node on the
    way other than a passes `gate`. */
module TreeFacts {

  import opened Results
  import opened DependencyNodes

  /** Descend into every child. */
  predicate AnyNode(n: DependencyNode) { true }

  /** Descend into no child. */
  predicate NoNode(n: DependencyNode) { false }

  /** Descend into children whose scope is unset or `compile` (the `runtime` rule). */
  predicate CompileOrUnset(n: DependencyNode) { n.scope.None? || n.scope == Some("compile") }

  /** Descend into children that are not omitted. */
  predicate NotOmitted(n: DependencyNode) { !n.omitted }

  predicate Reach(ns: seq<DependencyNode>, a: nat, gate: DependencyNode -> bool, x: nat)
    decreases x
  {
    x < |ns| &&
    (x == a ||
     (ns[x].parent.Some? && ns[x].parent.value < x && gate(ns[x]) &&
      Reach(ns, a, gate, ns[x].parent.value)))
  }

  /** The nodes a gated descent from a visits, a included. */
  function Subtree(ns: seq<DependencyNode>, a: nat, gate: DependencyNode -> bool): set<nat> {
    set x | 0 <= x < |ns| && Reach(ns, a, gate, x)
  }

  /** The nodes a gated descent from a visits, a excluded. */
  function Descendants(ns: seq<DependencyNode>, a: nat, gate: DependencyNode -> bool): set<nat> {
    Subtree(ns, a, gate) - {a}
  }

  /** The child of a on the way to its descendant x (-1 when there is none). */
  function ChildToward(ns: seq<DependencyNode>, a: nat, x: nat): int
    decreases x
  {
    if x >= |ns| || ns[x].parent.None? then -1
    else if ns[x].parent.value == a then x
    else if ns[x].parent.value < x then ChildToward(ns, a, ns[x].parent.value)
    else -1
  }

  /** The part of a's descendants that hangs below the children listed in `cs`. */
  function Below(ns: seq<DependencyNode>, a: nat, gate: DependencyNode -> bool, cs: seq<nat>): set<nat> {
    set x | 0 <= x < |ns| && Reach(ns, a, gate, x) && x != a && ChildToward(ns, a, x) in cs
  }

  lemma {:induction false} ReachAbove(ns: seq<DependencyNode>, a: nat, gate: DependencyNode -> bool, x: nat)
    requires Reach(ns, a, gate, x)
    ensures a <= x
    ensures Reach(ns, a, AnyNode, x)
    decreases x
  {
    if x != a {
      ReachAbove(ns, a, gate, ns[x].parent.value);
    }
  }

  /** A descendant hangs below one child of a, which the descent entered, and which it
      then descended from. */
  lemma {:induction false} ChildTowardFacts(ns: seq<DependencyNode>, a: nat, gate: DependencyNode -> bool, x: nat)
    requires Linked(ns) && a < |ns| && Reach(ns, a, gate, x) && x != a
    ensures 0 <= ChildToward(ns, a, x) <= x
    ensures ChildToward(ns, a, x) in ns[a].children
    ensures ns[ChildToward(ns, a, x)].parent == Some(a)
    ensures gate(ns[ChildToward(ns, a, x)])
    ensures Reach(ns, ChildToward(ns, a, x), gate, x)
    decreases x
  {
    var p := ns[x].parent.value;
    if p != a {
      ChildTowardFacts(ns, a, gate, p);
    }
  }

  /** Conversely, whatever a descent from an entered child c visits is a descendant of a
      below c. */
  lemma {:induction false} ChildSubtree(ns: seq<DependencyNode>, a: nat, gate: DependencyNode -> bool, c: nat, x: nat)
    requires Linked(ns) && a < |ns| && c in ns[a].children && gate(ns[c]) && Reach(ns, c, gate, x)
    ensures Reach(ns, a, gate, x) && x != a && ChildToward(ns, a, x) == c
    decreases x
  {
    ReachAbove(ns, c, gate, x);
    if x != c {
      ChildSubtree(ns, a, gate, c, ns[x].parent.value);
    }
  }

  /** Taking one more child c of a into `cs` adds c's gated subtree when the gate lets
      the descent into c, and nothing otherwise. */
  lemma BelowStep(ns: seq<DependencyNode>, a: nat, gate: DependencyNode -> bool, cs: seq<nat>, c: nat)
    requires Linked(ns) && a < |ns| && c in ns[a].children
    ensures Below(ns, a, gate, cs + [c]) ==
      Below(ns, a, gate, cs) + (if gate(ns[c]) then Subtree(ns, c, gate) else {})
  {
    var lhs := Below(ns, a, gate, cs + [c]);
    var rhs := Below(ns, a, gate, cs) + (if gate(ns[c]) then Subtree(ns, c, gate) else {});
    forall x | x in lhs ensures x in rhs {
      if ChildToward(ns, a, x) !in cs {
        ChildTowardFacts(ns, a, gate, x);
      }
    }
    forall x | x in rhs ensures x in lhs {
      if x !in Below(ns, a, gate, cs) {
        ChildSubtree(ns, a, gate, c, x);
      }
    }
  }

  /** Below all of a's children lie exactly a's descendants. */
  lemma BelowAll(ns: seq<DependencyNode>, a: nat, gate: DependencyNode -> bool)
    requires Linked(ns) && a < |ns|
    ensures Below(ns, a, gate, ns[a].children) == Descendants(ns, a, gate)
  {
    forall x | x in Descendants(ns, a, gate) ensures x in Below(ns, a, gate, ns[a].children) {
      ChildTowardFacts(ns, a, gate, x);
    }
  }

  /** Nothing in c's subtree hangs below another child of a. */
  lemma BelowDisjoint(ns: seq<DependencyNode>, a: nat, gate: DependencyNode -> bool, cs: seq<nat>, c: nat, x: nat)
    requires Linked(ns) && a < |ns| && c in ns[a].children && c !in cs
    requires Reach(ns, c, AnyNode, x)
    ensures x !in Below(ns, a, gate, cs) && x != a
  {
    ChildSubtree(ns, a, AnyNode, c, x);
    if x in Below(ns, a, gate, cs) {
      ChildTowardFacts(ns, a, gate, x);
    }
  }

  /** A descent visits the same nodes in two arenas with the same links whose nodes below
      the start answer the gate alike. */
  lemma {:induction false} ReachFrame(ns: seq<DependencyNode>, ms: seq<DependencyNode>, a: nat, gate: DependencyNode -> bool, x: nat)
    requires SameLinks(ns, ms)
    requires forall y :: 0 <= y < |ns| && y != a && Reach(ns, a, AnyNode, y) ==> gate(ns[y]) == gate(ms[y])
    ensures Reach(ns, a, gate, x) == Reach(ms, a, gate, x)
    decreases x
  {
    if x < |ns| && x != a && ns[x].parent.Some? && ns[x].parent.value < x {
      var p := ns[x].parent.value;
      ReachFrame(ns, ms, a, gate, p);
      if Reach(ns, a, gate, p) {
        ReachAbove(ns, a, gate, p);
        assert Reach(ns, a, AnyNode, x);
      }
    }
  }

  // Sums of a weight over a set of node indices.

  function SumTo(ns: seq<DependencyNode>, xs: set<nat>, w: DependencyNode -> int, n: nat): int
    requires n <= |ns|
    decreases n
  {
    if n == 0 then 0 else SumTo(ns, xs, w, n - 1) + (if n - 1 in xs then w(ns[n - 1]) else 0)
  }

  /** The total weight of the nodes in `xs`. */
  function Sum(ns: seq<DependencyNode>, xs: set<nat>, w: DependencyNode -> int): int {
    SumTo(ns, xs, w, |ns|)
  }

  lemma {:induction false} SumToUnion(ns: seq<DependencyNode>, xs: set<nat>, ys: set<nat>, w: DependencyNode -> int, n: nat)
    requires n <= |ns| && xs !! ys
    ensures SumTo(ns, xs + ys, w, n) == SumTo(ns, xs, w, n) + SumTo(ns, ys, w, n)
  {
    if n > 0 {
      SumToUnion(ns, xs, ys, w, n - 1);
    }
  }

  lemma SumUnion(ns: seq<DependencyNode>, xs: set<nat>, ys: set<nat>, w: DependencyNode -> int)
    requires xs !! ys
    ensures Sum(ns, xs + ys, w) == Sum(ns, xs, w) + Sum(ns, ys, w)
  {
    SumToUnion(ns, xs, ys, w, |ns|);
  }

  lemma {:induction false} SumToSingleton(ns: seq<DependencyNode>, x: nat, w: DependencyNode -> int, n: nat)
    requires x < n <= |ns|
    ensures SumTo(ns, {x}, w, n) == w(ns[x])
  {
    if n - 1 != x {
      SumToSingleton(ns, x, w, n - 1);
    } else {
      SumToEmpty(ns, {x}, w, n - 1);
    }
  }

  lemma SumSingleton(ns: seq<DependencyNode>, x: nat, w: DependencyNode -> int)
    requires x < |ns|
    ensures Sum(ns, {x}, w) == w(ns[x])
  {
    SumToSingleton(ns, x, w, |ns|);
  }

  /** Only members below n count. */
  lemma {:induction false} SumToEmpty(ns: seq<DependencyNode>, xs: set<nat>, w: DependencyNode -> int, n: nat)
    requires n <= |ns| && forall x :: x in xs ==> x >= n
    ensures SumTo(ns, xs, w, n) == 0
  {
    if n > 0 {
      SumToEmpty(ns, xs, w, n - 1);
    }
  }

  function One(n: DependencyNode): int { 1 }

  /** Summing `One` counts. */
  lemma {:induction false} SumToOne(ns: seq<DependencyNode>, xs: set<nat>, n: nat)
    requires n <= |ns|
    ensures SumTo(ns, xs, One, n) == |set x | x in xs && x < n|
  {
    var below := set x | x in xs && x < n;
    if n == 0 {
      assert below == {};
    } else {
      SumToOne(ns, xs, n - 1);
      var prev := set x | x in xs && x < n - 1;
      if n - 1 in xs {
        assert below == prev + {n - 1};
      } else {
        assert below == prev;
      }
    }
  }

  lemma SumOneIsCard(ns: seq<DependencyNode>, xs: set<nat>)
    requires forall x :: x in xs ==> x < |ns|
    ensures Sum(ns, xs, One) == |xs|
  {
    SumToOne(ns, xs, |ns|);
    assert (set x | x in xs && x < |ns|) == xs;
  }

  /** Weight 1 on the nodes that satisfy `p`, 0 elsewhere. */
  function Indicator(p: DependencyNode -> bool): DependencyNode -> int {
    (n: DependencyNode) => if p(n) then 1 else 0
  }

  /** The members of `xs` whose node satisfies `p`. */
  function Where(ns: seq<DependencyNode>, xs: set<nat>, p: DependencyNode -> bool): set<nat> {
    set x | x in xs && x < |ns| && p(ns[x])
  }

  lemma {:induction false} SumToIndicator(ns: seq<DependencyNode>, xs: set<nat>, p: DependencyNode -> bool, n: nat)
    requires n <= |ns|
    ensures SumTo(ns, xs, Indicator(p), n) == SumTo(ns, Where(ns, xs, p), One, n)
  {
    if n > 0 {
      SumToIndicator(ns, xs, p, n - 1);
    }
  }

  /** Summing an indicator counts the nodes that satisfy it. */
  lemma SumIndicator(ns: seq<DependencyNode>, xs: set<nat>, p: DependencyNode -> bool)
    ensures Sum(ns, xs, Indicator(p)) == |Where(ns, xs, p)|
  {
    SumToIndicator(ns, xs, p, |ns|);
    SumOneIsCard(ns, Where(ns, xs, p));
  }

  /** A subtree is its root and its root's descendants. */
  lemma SubtreeSplit(ns: seq<DependencyNode>, a: nat, gate: DependencyNode -> bool, w: DependencyNode -> int)
    requires a < |ns|
    ensures Subtree(ns, a, gate) == {a} + Descendants(ns, a, gate)
    ensures Sum(ns, Subtree(ns, a, gate), w) == w(ns[a]) + Sum(ns, Descendants(ns, a, gate), w)
  {
    assert a in Subtree(ns, a, gate);
    assert Subtree(ns, a, gate) == {a} + Descendants(ns, a, gate);
    SumUnion(ns, {a}, Descendants(ns, a, gate), w);
    SumSingleton(ns, a, w);
  }

  /** Nothing lies below no children. */
  lemma BelowNoneSum(ns: seq<DependencyNode>, a: nat, gate: DependencyNode -> bool, w: DependencyNode -> int)
    ensures Sum(ns, Below(ns, a, gate, []), w) == 0
  {
    assert Below(ns, a, gate, []) == {};
    SumToEmpty(ns, {}, w, |ns|);
  }

  /** A loop over a's children that adds, for each child the gate lets through, the
      child's weight and the total over the child's gated descendants, sums over what lies
      below the children seen so far. */
  lemma BelowSum(ns: seq<DependencyNode>, a: nat, gate: DependencyNode -> bool, cs: seq<nat>, c: nat,
                 w: DependencyNode -> int)
    requires Linked(ns) && a < |ns| && c in ns[a].children && c !in cs
    ensures Sum(ns, Below(ns, a, gate, cs + [c]), w) ==
      Sum(ns, Below(ns, a, gate, cs), w) +
      (if gate(ns[c]) then w(ns[c]) + Sum(ns, Descendants(ns, c, gate), w) else 0)
  {
    BelowStep(ns, a, gate, cs, c);
    if gate(ns[c]) {
      forall x | x in Subtree(ns, c, gate) ensures x !in Below(ns, a, gate, cs) {
        ReachAbove(ns, c, gate, x);
        BelowDisjoint(ns, a, gate, cs, c, x);
      }
      SumUnion(ns, Below(ns, a, gate, cs), Subtree(ns, c, gate), w);
      SubtreeSplit(ns, c, gate, w);
    } else {
      assert Below(ns, a, gate, cs + [c]) == Below(ns, a, gate, cs);
    }
  }

  /** The step from the first `i` children of `a` to the first `i + 1`. */
  lemma NextChildSum(ns: seq<DependencyNode>, a: nat, gate: DependencyNode -> bool, i: nat,
                     w: DependencyNode -> int)
    requires Linked(ns) && a < |ns| && i < |ns[a].children|
    ensures var cs := ns[a].children;
      Sum(ns, Below(ns, a, gate, cs[..i + 1]), w) ==
      Sum(ns, Below(ns, a, gate, cs[..i]), w) + (if gate(ns[cs[i]]) then Sum(ns, Subtree(ns, cs[i], gate), w) else 0)
  {
    var cs := ns[a].children;
    assert cs[i] !in cs[..i];
    BelowSubtreeSum(ns, a, gate, cs[..i], cs[i], w);
    TakeNext(cs, i);
  }

  /** The same step with the child's whole gated subtree as one term. */
  lemma BelowSubtreeSum(ns: seq<DependencyNode>, a: nat, gate: DependencyNode -> bool, cs: seq<nat>, c: nat,
                        w: DependencyNode -> int)
    requires Linked(ns) && a < |ns| && c in ns[a].children && c !in cs
    ensures Sum(ns, Below(ns, a, gate, cs + [c]), w) ==
      Sum(ns, Below(ns, a, gate, cs), w) + (if gate(ns[c]) then Sum(ns, Subtree(ns, c, gate), w) else 0)
  {
    BelowSum(ns, a, gate, cs, c, w);
    SubtreeSplit(ns, c, gate, w);
  }

  // Walking a child list.

  lemma TakeNext(xs: seq<nat>, i: nat)
    requires i < |xs|
    ensures xs[..i + 1] == xs[..i] + [xs[i]]
  {
  }

  lemma TakeAll(xs: seq<nat>)
    ensures xs[..|xs|] == xs
  {
  }
}
