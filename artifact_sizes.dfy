/** Artifact sizes: `getArtifactSize` with its memoising `sizeCache`, the recursive
    `calculateTotalSize`, and `formatSize`.

    Where a size comes from (the local repository file, else the `Content-Length` of an
    HTTP HEAD request to Maven Central, else 0) is outside the model: it is the function
    `lookup` the service is built with. */
module ArtifactSizes {

  import opened Results
  import opened JavaString
  import opened DependencyNodes
  import opened TreeFacts

  /** The cache key `groupId:artifactId:version`. */
  function CacheKey(groupId: string, artifactId: string, version: string): string {
    groupId + ":" + artifactId + ":" + version
  }

  datatype Coordinates = Coordinates(groupId: string, artifactId: string, version: string)

  lemma CountColons(g: string, a: string, v: string)
    ensures CountChar(CacheKey(g, a, v), ':') == CountChar(g, ':') + CountChar(a, ':') + CountChar(v, ':') + 2
  {
    CountCharAppend(g, ":", ':');
    CountCharAppend(g + ":", a, ':');
    CountCharAppend(g + ":" + a, ":", ':');
    CountCharAppend(g + ":" + a + ":", v, ':');
    assert CountChar(":", ':') == 1;
  }

  /** Coordinates free of `':'` have a key no other coordinates share. */
  lemma CacheKeyInjective(g: string, a: string, v: string, g': string, a': string, v': string)
    requires ':' !in g && ':' !in a && ':' !in v
    requires CacheKey(g, a, v) == CacheKey(g', a', v')
    ensures g == g' && a == a' && v == v'
  {
    CountColons(g, a, v);
    CountColons(g', a', v');
    CountCharZero(g, ':');
    CountCharZero(a, ':');
    CountCharZero(v, ':');
    CountCharZero(g', ':');
    CountCharZero(a', ':');
    CountCharZero(v', ':');
    KeyFields(g, a, v);
    KeyFields(g', a', v');
  }

  /** Splitting the key of coordinates free of `':'` at every `':'` gives them back. */
  lemma KeyFields(g: string, a: string, v: string)
    requires ':' !in g && ':' !in a && ':' !in v
    ensures Fields(CacheKey(g, a, v), ':') == [g, a, v]
  {
    assert Join([v], ':') == v;
    assert Join([a, v], ':') == a + ":" + v;
    assert Join([g, a, v], ':') == CacheKey(g, a, v);
    FieldsOfJoin([g, a, v], ':');
  }

  /** Two different coordinates can share a key. */
  lemma CacheKeyCollision()
    ensures CacheKey("a:b", "c", "d") == CacheKey("a", "b:c", "d")
  {
  }

  /** `m1` holds every entry of `m0`, unchanged. */
  ghost predicate KeptIn(m0: map<string, int>, m1: map<string, int>) {
    forall k :: k in m0 ==> k in m1 && m1[k] == m0[k]
  }

  lemma KeptInTransitive(m0: map<string, int>, m1: map<string, int>, m2: map<string, int>)
    requires KeptIn(m0, m1) && KeptIn(m1, m2)
    ensures KeptIn(m0, m2)
  {
  }

  /** Storing a key that is new, or storing an old key's own value again, keeps every
      entry and adds just that key. */
  lemma CachePut(m0: map<string, int>, k: string, v: int)
    requires k in m0 ==> v == m0[k]
    ensures KeptIn(m0, m0[k := v]) && m0[k := v].Keys == m0.Keys + {k}
  {
  }

  lemma UnionChain(k0: set<string>, k1: set<string>, k2: set<string>, before: set<string>, added: set<string>)
    requires k1 == k0 + before && k2 == k1 + added
    ensures k2 == k0 + (before + added)
  {
  }

  /** The cache keys of the nodes `xs`. */
  function KeysOf(ns: seq<DependencyNode>, xs: set<nat>): set<string> {
    set x | x in xs && x < |ns| :: CacheKey(ns[x].groupId, ns[x].artifactId, ns[x].version)
  }

  lemma KeysOfUnion(ns: seq<DependencyNode>, xs: set<nat>, ys: set<nat>)
    ensures KeysOf(ns, xs + ys) == KeysOf(ns, xs) + KeysOf(ns, ys)
  {
  }

  /** Before any child, a walk from `a` has cached the key of `a` alone. */
  lemma StartKeys(ns: seq<DependencyNode>, a: nat, gate: DependencyNode -> bool)
    requires a < |ns|
    ensures KeysOf(ns, {a} + Below(ns, a, gate, [])) == {CacheKey(ns[a].groupId, ns[a].artifactId, ns[a].version)}
  {
    assert Below(ns, a, gate, []) == {};
    assert {a} + {} == {a};
  }

  /** One more child of `a`: its gated subtree's keys join, when the gate lets the walk in. */
  lemma NextChildKeys(ns: seq<DependencyNode>, a: nat, gate: DependencyNode -> bool, i: nat)
    requires Linked(ns) && a < |ns| && i < |ns[a].children|
    ensures var cs := ns[a].children;
      KeysOf(ns, {a} + Below(ns, a, gate, cs[..i + 1])) ==
      KeysOf(ns, {a} + Below(ns, a, gate, cs[..i])) +
      (if gate(ns[cs[i]]) then KeysOf(ns, Subtree(ns, cs[i], gate)) else {})
  {
    var cs := ns[a].children;
    TakeNext(cs, i);
    BelowStep(ns, a, gate, cs[..i], cs[i]);
    var extra := if gate(ns[cs[i]]) then Subtree(ns, cs[i], gate) else {};
    assert {a} + Below(ns, a, gate, cs[..i + 1]) == ({a} + Below(ns, a, gate, cs[..i])) + extra;
    KeysOfUnion(ns, {a} + Below(ns, a, gate, cs[..i]), extra);
  }

  /** The service part that keeps `sizeCache`. */
  class SizeService {
    /** `sizeCache`: key to the size stored when the key was first asked for. */
    var sizeCache: map<string, int>
    /** For each key, the coordinates whose lookup stored it. */
    ghost var origin: map<string, Coordinates>
    /** The size found for an artifact; may be negative when the server reports no length. */
    const lookup: (string, string, string) -> int

    /** Every cached size is the lookup of coordinates that have the key. */
    ghost predicate Valid()
      reads this
    {
      origin.Keys == sizeCache.Keys &&
      forall k :: k in origin ==>
        CacheKey(origin[k].groupId, origin[k].artifactId, origin[k].version) == k &&
        sizeCache[k] == lookup(origin[k].groupId, origin[k].artifactId, origin[k].version)
    }

    constructor (lookup: (string, string, string) -> int)
      ensures this.lookup == lookup && sizeCache == map[] && Valid()
    {
      this.lookup := lookup;
      sizeCache := map[];
      origin := map[];
    }

    /** For coordinates free of `':'`, a cached size is their own lookup. */
    lemma CachedIsLookup(groupId: string, artifactId: string, version: string)
      requires Valid()
      requires ':' !in groupId && ':' !in artifactId && ':' !in version
      requires CacheKey(groupId, artifactId, version) in sizeCache
      ensures sizeCache[CacheKey(groupId, artifactId, version)] == lookup(groupId, artifactId, version)
    {
      var o := origin[CacheKey(groupId, artifactId, version)];
      CacheKeyInjective(groupId, artifactId, version, o.groupId, o.artifactId, o.version);
    }

    /** `getArtifactSize(groupId, artifactId, version)`: a cached key answers from the
        cache, a new key is looked up. Either way the key is cached with the returned size
        afterwards and no other entry changes, so a cached key leaves the cache as it was
        and asking again agrees. */
    method GetArtifactSize(groupId: string, artifactId: string, version: string) returns (size: int)
      requires Valid()
      modifies this
      ensures Valid()
      ensures CacheKey(groupId, artifactId, version) in old(sizeCache) ==>
        size == old(sizeCache)[CacheKey(groupId, artifactId, version)]
      ensures CacheKey(groupId, artifactId, version) !in old(sizeCache) ==>
        size == lookup(groupId, artifactId, version)
      ensures sizeCache == old(sizeCache)[CacheKey(groupId, artifactId, version) := size]
      ensures ':' !in groupId && ':' !in artifactId && ':' !in version ==>
        size == lookup(groupId, artifactId, version)
    {
      var cacheKey := groupId + ":" + artifactId + ":" + version;
      if cacheKey in sizeCache {
        size := sizeCache[cacheKey];
        if ':' !in groupId && ':' !in artifactId && ':' !in version {
          CachedIsLookup(groupId, artifactId, version);
        }
        return;
      }
      size := lookup(groupId, artifactId, version);
      sizeCache := sizeCache[cacheKey := size];
      origin := origin[cacheKey := Coordinates(groupId, artifactId, version)];
    }

    /** `calculateTotalSize(node)`: the size of the node plus the totals of its children
        that are not omitted; an omitted child adds nothing, its subtree included. The
        cache keeps every entry it had and gains exactly the keys of the summed nodes. */
    method CalculateTotalSize(tree: DependencyTree, node: nat) returns (total: int)
      requires Valid() && tree.Valid() && node < |tree.nodes|
      requires forall x :: 0 <= x < |tree.nodes| ==> tree.nodes[x].ColonFree()
      modifies this
      decreases |tree.nodes| - node, 1
      ensures Valid()
      ensures total == Sum(tree.nodes, Subtree(tree.nodes, node, NotOmitted), Size(lookup))
      ensures KeptIn(old(sizeCache), sizeCache)
      ensures sizeCache.Keys == old(sizeCache).Keys + KeysOf(tree.nodes, Subtree(tree.nodes, node, NotOmitted))
    {
      ghost var ns := tree.nodes;
      ghost var w := Size(lookup);
      ghost var c0 := sizeCache;
      var n := tree.nodes[node];
      total := GetArtifactSize(n.groupId, n.artifactId, n.version);
      CachePut(c0, CacheKey(n.groupId, n.artifactId, n.version), total);
      StartKeys(ns, node, NotOmitted);
      BelowNoneSum(ns, node, NotOmitted, w);
      var children := n.children;
      var i := 0;
      while i < |children|
        invariant 0 <= i <= |children|
        invariant Valid()
        invariant total == w(n) + Sum(ns, Below(ns, node, NotOmitted, children[..i]), w)
        invariant KeptIn(c0, sizeCache)
        invariant sizeCache.Keys == c0.Keys + KeysOf(ns, {node} + Below(ns, node, NotOmitted, children[..i]))
      {
        ghost var mid := sizeCache;
        var sub := ChildTotal(tree, node, i);
        KeptInTransitive(c0, mid, sizeCache);
        NextChildSum(ns, node, NotOmitted, i, w);
        NextChildKeys(ns, node, NotOmitted, i);
        ghost var c := children[i];
        UnionChain(c0.Keys, mid.Keys, sizeCache.Keys,
          KeysOf(ns, {node} + Below(ns, node, NotOmitted, children[..i])),
          if NotOmitted(ns[c]) then KeysOf(ns, Subtree(ns, c, NotOmitted)) else {});
        total := total + sub;
        i := i + 1;
      }
      TakeAll(children);
      BelowAll(ns, node, NotOmitted);
      SubtreeSplit(ns, node, NotOmitted, w);
    }

    /** The loop body of `calculateTotalSize` for child `i` of `node`: the child's total,
        or nothing for an omitted child. */
    method ChildTotal(tree: DependencyTree, node: nat, i: nat) returns (sub: int)
      requires Valid() && tree.Valid() && node < |tree.nodes| && i < |tree.nodes[node].children|
      requires forall x :: 0 <= x < |tree.nodes| ==> tree.nodes[x].ColonFree()
      modifies this
      decreases |tree.nodes| - node, 0
      ensures Valid()
      ensures var c := tree.nodes[node].children[i];
        sub == (if NotOmitted(tree.nodes[c]) then Sum(tree.nodes, Subtree(tree.nodes, c, NotOmitted), Size(lookup)) else 0)
      ensures KeptIn(old(sizeCache), sizeCache)
      ensures var c := tree.nodes[node].children[i];
        sizeCache.Keys == old(sizeCache).Keys +
          (if NotOmitted(tree.nodes[c]) then KeysOf(tree.nodes, Subtree(tree.nodes, c, NotOmitted)) else {})
    {
      var child := tree.nodes[node].children[i];
      assert tree.nodes[child].parent == Some(node);
      sub := 0;
      if !tree.nodes[child].omitted {
        sub := CalculateTotalSize(tree, child);
      }
    }
  }

  /** An omitted child adds nothing: no node of its subtree, the child included, is among
      the nodes `calculateTotalSize` sums over, whatever their own flags. */
  lemma OmittedSubtreeExcluded(ns: seq<DependencyNode>, a: nat, c: nat, x: nat)
    requires Linked(ns) && a < |ns| && c in ns[a].children && ns[c].omitted
    requires Reach(ns, c, AnyNode, x)
    ensures x !in Subtree(ns, a, NotOmitted)
  {
    ChildSubtree(ns, a, AnyNode, c, x);
    if x in Subtree(ns, a, NotOmitted) {
      ChildTowardFacts(ns, a, NotOmitted, x);
    }
  }

  /** The weight `calculateTotalSize` sums: the size found for each node. */
  function Size(lookup: (string, string, string) -> int): DependencyNode -> int {
    (n: DependencyNode) => lookup(n.groupId, n.artifactId, n.version)
  }

  // ---------------------------------------------------------------------------------------
  // formatSize

  /** What `formatSize` returns: a literal text, or the amount a `String.format` pattern is
      applied to (the pattern's floating-point rendering is outside the model). */
  datatype SizeText = Plain(text: string) | Formatted(pattern: string, amount: real)

  const KiB: int := 1024
  const MiB: int := 1024 * 1024
  const GiB: int := 1024 * 1024 * 1024

  /** `formatSize(bytes)`. */
  function FormatSize(bytes: int): (r: SizeText)
    ensures r.Plain? <==> bytes < KiB
  {
    if bytes == 0 then Plain("-")
    else if bytes < KiB then Plain(IntToDecimal(bytes) + " B")
    else if bytes < MiB then Formatted("%.1f KB", bytes as real / 1024.0)
    else if bytes < GiB then Formatted("%.1f MB", bytes as real / (1024.0 * 1024.0))
    else Formatted("%.2f GB", bytes as real / (1024.0 * 1024.0 * 1024.0))
  }

  /** Zero is a dash; a positive size under 1024 is its decimal digits without a leading
      zero, which read back as the size, then `" B"`; a negative one (a missing length) is a
      minus sign, the digits of its magnitude and `" B"`. */
  lemma FormatSmallSizes(bytes: int)
    requires bytes < KiB
    ensures bytes == 0 ==> FormatSize(bytes) == Plain("-")
    ensures 0 < bytes ==>
      var t := FormatSize(bytes).text;
      |t| >= 3 && t[|t| - 2..] == " B" && t[0] != '0' &&
      (forall i :: 0 <= i < |t| - 2 ==> '0' <= t[i] <= '9') &&
      DecimalValue(t[..|t| - 2]) == bytes
    ensures bytes < 0 ==>
      var t := FormatSize(bytes).text;
      |t| >= 4 && t[0] == '-' && t[|t| - 2..] == " B" && t[1] != '0' &&
      (forall i :: 1 <= i < |t| - 2 ==> '0' <= t[i] <= '9') &&
      DecimalValue(t[1..|t| - 2]) == -bytes
  {
    if 0 < bytes {
      DigitsWithUnit(bytes, FormatSize(bytes).text);
    } else if bytes < 0 {
      SignedDigitsWithUnit(-bytes, FormatSize(bytes).text);
    }
  }

  /** The digits of a positive number, then `" B"`. */
  lemma DigitsWithUnit(n: nat, t: string)
    requires 0 < n && t == NatToDecimal(n) + " B"
    ensures |t| >= 3 && t[|t| - 2..] == " B" && t[0] != '0' &&
      (forall i :: 0 <= i < |t| - 2 ==> '0' <= t[i] <= '9') &&
      DecimalValue(t[..|t| - 2]) == n
  {
    var d := NatToDecimal(n);
    assert t[..|t| - 2] == d && t[0] == d[0];
    DecimalRoundTrip(n);
  }

  /** A minus sign, the digits of a positive number, then `" B"`. */
  lemma SignedDigitsWithUnit(n: nat, t: string)
    requires 0 < n && t == "-" + NatToDecimal(n) + " B"
    ensures |t| >= 4 && t[0] == '-' && t[|t| - 2..] == " B" && t[1] != '0' &&
      (forall i :: 1 <= i < |t| - 2 ==> '0' <= t[i] <= '9') &&
      DecimalValue(t[1..|t| - 2]) == n
  {
    var d := NatToDecimal(n);
    assert t[1..|t| - 2] == d && t[1] == d[0];
    DecimalRoundTrip(n);
  }

  /** The scaled branches: the amount is the size in the branch's unit, at least one and,
      below gigabytes, less than 1024 of that unit. */
  lemma FormatScaledSizes(bytes: int)
    requires bytes >= KiB
    ensures FormatSize(bytes).Formatted?
    ensures bytes < MiB ==>
      (FormatSize(bytes).pattern == "%.1f KB" &&
       1.0 <= FormatSize(bytes).amount < 1024.0 && FormatSize(bytes).amount * 1024.0 == bytes as real)
    ensures MiB <= bytes < GiB ==>
      (FormatSize(bytes).pattern == "%.1f MB" &&
       1.0 <= FormatSize(bytes).amount < 1024.0 &&
       FormatSize(bytes).amount * (1024.0 * 1024.0) == bytes as real)
    ensures GiB <= bytes ==>
      (FormatSize(bytes).pattern == "%.2f GB" && 1.0 <= FormatSize(bytes).amount &&
       FormatSize(bytes).amount * (1024.0 * 1024.0 * 1024.0) == bytes as real)
  {
  }
}
