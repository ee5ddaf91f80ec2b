/** Connected components by union-find with path halving (`JoinGraph::components`). */
module UnionFind {
  import opened Degree

  // Connectivity, stated through paths and independently of any forest.

  ghost predicate Adjacent(edges: seq<JoinEdge>, x: nat, y: nat) {
    exists e :: e in edges && ((e.left == x && e.right == y) || (e.left == y && e.right == x))
  }

  ghost predicate IsPath(edges: seq<JoinEdge>, path: seq<nat>) {
    path != [] && forall i | 0 <= i < |path| - 1 :: Adjacent(edges, path[i], path[i + 1])
  }

  ghost predicate Connected(edges: seq<JoinEdge>, x: nat, y: nat) {
    exists path :: IsPath(edges, path) && path[0] == x && path[|path| - 1] == y
  }

  lemma ConnectedReflexive(edges: seq<JoinEdge>, x: nat)
    ensures Connected(edges, x, x)
  {
    assert IsPath(edges, [x]);
  }

  lemma ConnectedEdge(edges: seq<JoinEdge>, e: JoinEdge)
    requires e in edges
    ensures Connected(edges, e.left, e.right)
  {
    var path := [e.left, e.right];
    assert Adjacent(edges, path[0], path[1]);
    assert IsPath(edges, path);
  }

  lemma ConnectedSymmetric(edges: seq<JoinEdge>, x: nat, y: nat)
    requires Connected(edges, x, y)
    ensures Connected(edges, y, x)
  {
    var path :| IsPath(edges, path) && path[0] == x && path[|path| - 1] == y;
    var back := seq(|path|, i requires 0 <= i < |path| => path[|path| - 1 - i]);
    forall i | 0 <= i < |back| - 1 ensures Adjacent(edges, back[i], back[i + 1]) {
      assert Adjacent(edges, path[|path| - 2 - i], path[|path| - 2 - i + 1]);
    }
    assert IsPath(edges, back);
  }

  lemma ConnectedTransitive(edges: seq<JoinEdge>, x: nat, y: nat, z: nat)
    requires Connected(edges, x, y) && Connected(edges, y, z)
    ensures Connected(edges, x, z)
  {
    var p :| IsPath(edges, p) && p[0] == x && p[|p| - 1] == y;
    var q :| IsPath(edges, q) && q[0] == y && q[|q| - 1] == z;
    var path := p + q[1..];
    forall i | 0 <= i < |path| - 1 ensures Adjacent(edges, path[i], path[i + 1]) {
      if i < |p| - 1 {
        assert Adjacent(edges, p[i], p[i + 1]);
      } else {
        assert path[i] == q[i - |p| + 1];
        assert Adjacent(edges, q[i - |p| + 1], q[i - |p| + 1 + 1]);
      }
    }
    assert IsPath(edges, path);
  }

  // The forest stored in the parent array.

  /**
    `p` is a forest in which `root` names every node's root; `rank` falls strictly
    on the way up, so following parents terminates.
   */
  ghost predicate Forest(p: seq<nat>, rank: seq<nat>, root: seq<nat>) {
    && |p| == |rank| == |root|
    && forall x | 0 <= x < |p| :: ForestAt(p, rank, root, x)
  }

  ghost predicate ForestAt(p: seq<nat>, rank: seq<nat>, root: seq<nat>, x: nat)
    requires |p| == |rank| == |root| && x < |p|
  {
    && p[x] < |p| && root[x] < |p|
    && root[p[x]] == root[x] && p[root[x]] == root[x]
    && (if p[x] == x then root[x] == x else rank[p[x]] < rank[x])
  }

  /** The node k steps above x. */
  ghost function Climb(p: seq<nat>, x: nat, k: nat): nat
    decreases k
  {
    if k == 0 || x >= |p| then x else Climb(p, p[x], k - 1)
  }

  /** The root a forest assigns to x is the one fixed point that climbing from x reaches. */
  lemma {:induction false} RootIsWhereParentsLead(p: seq<nat>, rank: seq<nat>, root: seq<nat>, x: nat)
    requires Forest(p, rank, root) && x < |p|
    ensures exists k: nat :: Climb(p, x, k) == root[x]
    ensures forall k: nat, y: nat :: Climb(p, x, k) == y && y < |p| && p[y] == y ==> y == root[x]
    decreases rank[x]
  {
    assert ForestAt(p, rank, root, x);
    if p[x] == x {
      assert Climb(p, x, 0) == x;
    } else {
      RootIsWhereParentsLead(p, rank, root, p[x]);
      var k: nat :| Climb(p, p[x], k) == root[x];
      assert Climb(p, x, k + 1) == root[x];
    }
    forall k: nat, y: nat | Climb(p, x, k) == y && y < |p| && p[y] == y ensures y == root[x] {
      ClimbKeepsRoot(p, rank, root, x, k);
      assert ForestAt(p, rank, root, y);
    }
  }

  lemma {:induction false} ClimbKeepsRoot(p: seq<nat>, rank: seq<nat>, root: seq<nat>, x: nat, k: nat)
    requires Forest(p, rank, root) && x < |p|
    ensures Climb(p, x, k) < |p| && root[Climb(p, x, k)] == root[x]
    decreases k
  {
    if k > 0 {
      assert ForestAt(p, rank, root, x);
      ClimbKeepsRoot(p, rank, root, p[x], k - 1);
    }
  }

  /** Pointing a node at its grandparent changes no root. */
  lemma HalvePath(p: seq<nat>, rank: seq<nat>, root: seq<nat>, x: nat)
    requires Forest(p, rank, root) && x < |p| && p[x] != x
    ensures ForestAt(p, rank, root, x) && ForestAt(p, rank, root, p[x])
    ensures Forest(p[x := p[p[x]]], rank, root)
  {
    assert ForestAt(p, rank, root, x) && ForestAt(p, rank, root, p[x]);
    var p' := p[x := p[p[x]]];
    forall y | 0 <= y < |p| ensures ForestAt(p', rank, root, y) {
      assert ForestAt(p, rank, root, y);
    }
  }

  /** Finds the root of x, halving the path on the way; no node changes its root. */
  method Find(parent: array<nat>, x: nat, ghost rank: seq<nat>, ghost root: seq<nat>) returns (r: nat)
    requires Forest(parent[..], rank, root) && x < parent.Length
    modifies parent
    ensures Forest(parent[..], rank, root)
    ensures r == root[x]
  {
    r := x;
    while parent[r] != r
      invariant Forest(parent[..], rank, root)
      invariant r < parent.Length && root[r] == root[x]
      decreases rank[r]
    {
      ghost var before := parent[..];
      HalvePath(before, rank, root, r);
      parent[r] := parent[parent[r]];
      assert parent[..] == before[r := before[before[r]]];
      r := parent[r];
    }
    assert ForestAt(parent[..], rank, root, r);
  }

  /** The root map once root a hangs under root b. */
  function Rehung(root: seq<nat>, a: nat, b: nat): seq<nat> {
    seq(|root|, x requires 0 <= x < |root| => if root[x] == a then b else root[x])
  }

  ghost function Raised(rank: seq<nat>, root: seq<nat>, a: nat, lift: nat): seq<nat>
    requires |rank| == |root|
  {
    seq(|root|, x requires 0 <= x < |root| => if root[x] == a then rank[x] + lift else rank[x])
  }

  lemma LinkRoots(p: seq<nat>, rank: seq<nat>, root: seq<nat>, a: nat, b: nat)
    requires Forest(p, rank, root) && a < |p| && b < |p| && a != b && p[a] == a && p[b] == b
    ensures Forest(p[a := b], Raised(rank, root, a, rank[b] + 1), Rehung(root, a, b))
  {
    var p', rank', root' := p[a := b], Raised(rank, root, a, rank[b] + 1), Rehung(root, a, b);
    assert ForestAt(p, rank, root, a) && ForestAt(p, rank, root, b);
    forall x | 0 <= x < |p| ensures ForestAt(p', rank', root', x) {
      assert ForestAt(p, rank, root, x);
    }
  }

  /** What is true of the forest once the first `done` edges have been merged. */
  ghost predicate Merged(g: JoinGraph, root: seq<nat>, done: nat)
    requires done <= |g.edges|
  {
    && |root| == g.Size()
    && (forall x | 0 <= x < |root| :: root[x] < |root| && Connected(g.edges, x, root[x]))
    && (forall k | 0 <= k < done ::
          var e := g.edges[k]; e.left < |root| && e.right < |root| && root[e.left] == root[e.right])
  }

  lemma MergeEdge(g: JoinGraph, root: seq<nat>, k: nat)
    requires g.Valid() && k < |g.edges| && Merged(g, root, k)
    ensures var e := g.edges[k]; Merged(g, Rehung(root, root[e.left], root[e.right]), k + 1)
  {
    var e := g.edges[k];
    var a, b := root[e.left], root[e.right];
    var root' := Rehung(root, a, b);
    forall x | 0 <= x < |root| ensures Connected(g.edges, x, root'[x]) {
      if root[x] == a {
        assert Connected(g.edges, e.left, a) && Connected(g.edges, e.right, b);
        ConnectedSymmetric(g.edges, e.left, a);
        ConnectedEdge(g.edges, e);
        ConnectedTransitive(g.edges, x, a, e.left);
        ConnectedTransitive(g.edges, x, e.left, e.right);
        ConnectedTransitive(g.edges, x, e.right, b);
      }
    }
  }

  lemma {:induction false} PathKeepsRoot(g: JoinGraph, root: seq<nat>, path: seq<nat>)
    requires Merged(g, root, |g.edges|) && IsPath(g.edges, path) && path[0] < |root|
    ensures path[|path| - 1] < |root| && root[path[|path| - 1]] == root[path[0]]
  {
    if |path| > 1 {
      assert Adjacent(g.edges, path[0], path[0 + 1]);
      var rest := path[1..];
      forall i | 0 <= i < |rest| - 1 ensures Adjacent(g.edges, rest[i], rest[i + 1]) {
        assert Adjacent(g.edges, path[i + 1], path[i + 1 + 1]);
      }
      PathKeepsRoot(g, root, rest);
    }
  }

  /** Once every edge is merged, sharing a root and being connected are the same thing. */
  lemma SameRootIffConnected(g: JoinGraph, root: seq<nat>, x: nat, y: nat)
    requires Merged(g, root, |g.edges|) && x < |root| && y < |root|
    ensures root[x] == root[y] <==> Connected(g.edges, x, y)
  {
    if root[x] == root[y] {
      assert Connected(g.edges, y, root[y]);
      ConnectedSymmetric(g.edges, y, root[y]);
      ConnectedTransitive(g.edges, x, root[x], y);
    }
    if Connected(g.edges, x, y) {
      var path :| IsPath(g.edges, path) && path[0] == x && path[|path| - 1] == y;
      PathKeepsRoot(g, root, path);
    }
  }

  // Grouping by root.

  ghost predicate Ascending(s: seq<nat>) {
    forall i, j | 0 <= i < j < |s| :: s[i] < s[j]
  }

  ghost predicate Placed(comps: seq<seq<nat>>, v: nat) {
    exists c :: 0 <= c < |comps| && v in comps[c]
  }

  /** The components of g: each relation in exactly one, together exactly when a path joins them. */
  ghost predicate IsPartition(g: JoinGraph, comps: seq<seq<nat>>) {
    && (forall c | 0 <= c < |comps| ::
          comps[c] != [] && Ascending(comps[c]) && forall v | v in comps[c] :: v < g.Size())
    && (forall v: nat | v < g.Size() :: Placed(comps, v))
    && (forall c, d, x, y | 0 <= c < |comps| && 0 <= d < |comps| && x in comps[c] && y in comps[d] ::
          Connected(g.edges, x, y) <==> c == d)
  }

  /** The nodes below v whose root is r, in ascending order. */
  function Class(root: seq<nat>, r: nat, v: nat): (s: seq<nat>)
    requires v <= |root|
    ensures Ascending(s)
    ensures forall x: nat :: x in s <==> x < v && root[x] == r
  {
    if v == 0 then []
    else
      var rest := Class(root, r, v - 1);
      assert forall i | 0 <= i < |rest| :: rest[i] in rest;
      if root[v - 1] == r then rest + [v - 1] else rest
  }

  /** The groups hold the classes of the nodes below v, and nothing for roots that have none. */
  ghost predicate Groups(root: seq<nat>, groups: map<nat, seq<nat>>, v: nat)
    requires v <= |root|
  {
    forall r: nat :: IsGroup(root, groups, v, r)
  }

  ghost predicate IsGroup(root: seq<nat>, groups: map<nat, seq<nat>>, v: nat, r: nat)
    requires v <= |root|
  {
    (if r in groups then groups[r] else []) == Class(root, r, v) && (r in groups <==> Class(root, r, v) != [])
  }

  /** The non-empty classes of the roots below key, by ascending root. */
  function ListClasses(root: seq<nat>, key: nat): seq<seq<nat>> {
    if key == 0 then []
    else
      var before, group := ListClasses(root, key - 1), Class(root, key - 1, |root|);
      if group == [] then before else before + [group]
  }

  lemma {:induction false} ListedClass(root: seq<nat>, key: nat, c: nat)
    requires c < |ListClasses(root, key)|
    ensures var group := ListClasses(root, key)[c];
            group != [] && exists r: nat :: r < key && group == Class(root, r, |root|)
  {
    if c < |ListClasses(root, key - 1)| {
      ListedClass(root, key - 1, c);
    } else {
      assert ListClasses(root, key)[c] == Class(root, key - 1, |root|);
    }
  }

  /** Each class is listed once: its place in the list and its root determine each other. */
  lemma {:induction false} ListedOnce(root: seq<nat>, key: nat, c: nat, d: nat, x: nat, y: nat)
    requires var comps := ListClasses(root, key); c < |comps| && d < |comps| && x in comps[c] && y in comps[d]
    ensures x < |root| && y < |root| && (root[x] == root[y] <==> c == d)
  {
    ListedClass(root, key, c);
    ListedClass(root, key, d);
    var before := ListClasses(root, key - 1);
    if c < |before| {
      ListedClass(root, key - 1, c);
    }
    if d < |before| {
      ListedClass(root, key - 1, d);
    }
    if c < |before| && d < |before| {
      ListedOnce(root, key - 1, c, d, x, y);
    }
  }

  lemma {:induction false} ListedSomewhere(root: seq<nat>, key: nat, x: nat)
    requires x < |root| && root[x] < key
    ensures Placed(ListClasses(root, key), x)
  {
    var before, comps := ListClasses(root, key - 1), ListClasses(root, key);
    if root[x] == key - 1 {
      assert x in Class(root, key - 1, |root|);
      assert x in comps[|before|];
    } else {
      ListedSomewhere(root, key - 1, x);
      var c :| 0 <= c < |before| && x in before[c];
      assert comps[c] == before[c];
    }
  }

  /** The root map once the first k edges are merged in order: the left end's root goes under the right end's. */
  function RootsAfter(g: JoinGraph, k: nat): (root: seq<nat>)
    requires g.Valid() && k <= |g.edges|
    ensures |root| == g.Size()
  {
    if k == 0 then seq(g.Size(), (x: nat) => x)
    else
      var root, e := RootsAfter(g, k - 1), g.edges[k - 1];
      assert e in g.edges;
      Rehung(root, root[e.left], root[e.right])
  }

  /** The components of the graph in the order in which they are listed. */
  function ComponentsOf(g: JoinGraph): seq<seq<nat>>
    requires g.Valid()
  {
    ListClasses(RootsAfter(g, |g.edges|), g.Size())
  }

  lemma {:induction false} RootsAreMerged(g: JoinGraph, k: nat)
    requires g.Valid() && k <= |g.edges|
    ensures Merged(g, RootsAfter(g, k), k)
  {
    if k == 0 {
      forall x: nat | x < g.Size() ensures Connected(g.edges, x, x) {
        ConnectedReflexive(g.edges, x);
      }
    } else {
      RootsAreMerged(g, k - 1);
      MergeEdge(g, RootsAfter(g, k - 1), k - 1);
    }
  }

  /** Merging the edges in order and listing the classes gives the connected components. */
  lemma ComponentsArePartition(g: JoinGraph)
    requires g.Valid()
    ensures IsPartition(g, ComponentsOf(g))
  {
    var root, comps := RootsAfter(g, |g.edges|), ComponentsOf(g);
    RootsAreMerged(g, |g.edges|);
    forall c | 0 <= c < |comps| ensures comps[c] != [] && Ascending(comps[c]) && forall v | v in comps[c] :: v < g.Size() {
      ListedClass(root, g.Size(), c);
    }
    forall v: nat | v < g.Size() ensures Placed(comps, v) {
      ListedSomewhere(root, g.Size(), v);
    }
    forall c, d, x, y | 0 <= c < |comps| && 0 <= d < |comps| && x in comps[c] && y in comps[d]
      ensures Connected(g.edges, x, y) <==> c == d
    {
      ListedOnce(root, g.Size(), c, d, x, y);
      SameRootIffConnected(g, root, x, y);
    }
  }

  /** One more edge merged: nothing changes if its ends share a root, and one root moves if they do not. */
  lemma MergeStep(g: JoinGraph, k: nat, p: seq<nat>, rank: seq<nat>)
    requires g.Valid() && k < |g.edges| && Forest(p, rank, RootsAfter(g, k))
    ensures var root, e := RootsAfter(g, k), g.edges[k];
            && e.left < |root| && e.right < |root|
            && var a, b := root[e.left], root[e.right];
            && a < |p| && b < |p|
            && (a == b ==> Forest(p, rank, RootsAfter(g, k + 1)))
            && (a != b ==> Forest(p[a := b], Raised(rank, root, a, rank[b] + 1), RootsAfter(g, k + 1)))
  {
    var root, e := RootsAfter(g, k), g.edges[k];
    assert e in g.edges;
    var a, b := root[e.left], root[e.right];
    assert ForestAt(p, rank, root, e.left) && ForestAt(p, rank, root, e.right);
    if a == b {
      assert Rehung(root, a, b) == root;
    } else {
      LinkRoots(p, rank, root, a, b);
    }
  }

  // The loops.

  method MergeAll(g: JoinGraph, parent: array<nat>) returns (ghost rank: seq<nat>)
    requires g.Valid() && parent.Length == g.Size()
    requires forall v | 0 <= v < parent.Length :: parent[v] == v
    modifies parent
    ensures Forest(parent[..], rank, RootsAfter(g, |g.edges|))
  {
    rank := seq(g.Size(), _ => 0);
    ghost var root := RootsAfter(g, 0);
    for k := 0 to |g.edges|
      invariant root == RootsAfter(g, k) && Forest(parent[..], rank, root)
    {
      var e := g.edges[k];
      assert e in g.edges;
      var a := Find(parent, e.left, rank, root);
      var b := Find(parent, e.right, rank, root);
      MergeStep(g, k, parent[..], rank);
      if a != b {
        ghost var before := parent[..];
        parent[a] := b;
        assert parent[..] == before[a := b];
        rank := Raised(rank, root, a, rank[b] + 1);
      }
      root := RootsAfter(g, k + 1);
    }
  }

  function Push(groups: map<nat, seq<nat>>, r: nat, v: nat): map<nat, seq<nat>> {
    groups[r := (if r in groups then groups[r] else []) + [v]]
  }

  lemma PushGroups(root: seq<nat>, groups: map<nat, seq<nat>>, v: nat)
    requires v < |root| && Groups(root, groups, v)
    ensures Groups(root, Push(groups, root[v], v), v + 1)
  {
    var pushed, next := Push(groups, root[v], v), v + 1;
    forall r: nat ensures IsGroup(root, pushed, next, r) {
      assert IsGroup(root, groups, v, r);
    }
  }

  method GroupByRoot(parent: array<nat>, ghost rank: seq<nat>, ghost root: seq<nat>)
    returns (groups: map<nat, seq<nat>>)
    requires Forest(parent[..], rank, root)
    modifies parent
    ensures Groups(root, groups, |root|)
  {
    groups := map[];
    for v := 0 to parent.Length
      invariant Forest(parent[..], rank, root)
      invariant Groups(root, groups, v)
    {
      var r := Find(parent, v, rank, root);
      PushGroups(root, groups, v);
      groups := Push(groups, r, v);
    }
  }

  method ListGroups(n: nat, groups: map<nat, seq<nat>>, ghost root: seq<nat>) returns (comps: seq<seq<nat>>)
    requires n == |root| && Groups(root, groups, n)
    ensures comps == ListClasses(root, n)
  {
    comps := [];
    for key := 0 to n
      invariant comps == ListClasses(root, key)
    {
      assert IsGroup(root, groups, n, key);
      if key in groups {
        comps := comps + [groups[key]];
      }
    }
  }

  method Components(g: JoinGraph) returns (comps: seq<seq<nat>>)
    requires g.Valid()
    ensures comps == ComponentsOf(g)
    ensures IsPartition(g, comps)
  {
    var n := g.Size();
    var parent := new nat[n](i => i);
    ghost var rank := MergeAll(g, parent);
    var groups := GroupByRoot(parent, rank, RootsAfter(g, |g.edges|));
    comps := ListGroups(n, groups, RootsAfter(g, |g.edges|));
    ComponentsArePartition(g);
  }
}
