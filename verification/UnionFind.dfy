/**
 The union-find forest over card identifiers: `find` with path halving, linking of the larger root under
 the smaller one, and what the forest says about connectedness by the edges linked so far.
 */
module UnionFind {

  type Parents = map<nat, nat>

  datatype Edge = Edge(from: nat, to: nat)

  /** Parents never exceed their children; this is what makes `find` end. */
  ghost predicate Forest(p: Parents) {
    forall i :: ParentAt(p, i)
  }

  ghost predicate ParentAt(p: Parents, i: nat) {
    i in p ==> p[i] in p && p[i] <= i
  }

  ghost function Root(p: Parents, i: nat): nat
    requires Forest(p) && i in p
    decreases i
  {
    assert ParentAt(p, i);
    if p[i] == i then i else Root(p, p[i])
  }

  lemma {:induction false} RootIsRoot(p: Parents, i: nat)
    requires Forest(p) && i in p
    ensures Root(p, i) in p && p[Root(p, i)] == Root(p, i) && Root(p, i) <= i
    decreases i
  {
    assert ParentAt(p, i);
    if p[i] != i { RootIsRoot(p, p[i]); }
  }

  ghost predicate SameRootAt(p: Parents, q: Parents, j: nat)
    requires Forest(p) && Forest(q) && p.Keys == q.Keys
  {
    j in p ==> Root(q, j) == Root(p, j)
  }

  ghost predicate SameRoots(p: Parents, q: Parents) {
    Forest(p) && Forest(q) && p.Keys == q.Keys && forall j :: SameRootAt(p, q, j)
  }

  // ---------- find ----------

  lemma {:induction false} HalvingKeepsForest(p: Parents, i: nat)
    requires Forest(p) && i in p
    ensures p[i] in p && p[i] <= i && p[p[i]] in p && p[p[i]] <= p[i]
    ensures Forest(p[i := p[p[i]]]) && p[i := p[p[i]]].Keys == p.Keys
  {
    assert ParentAt(p, i) && ParentAt(p, p[i]);
    var q := p[i := p[p[i]]];
    forall j ensures ParentAt(q, j) { assert ParentAt(p, j); }
  }

  lemma {:induction false} HalvingKeepsRoot(p: Parents, i: nat, q: Parents, j: nat)
    requires Forest(p) && i in p && p[i] in p && q == p[i := p[p[i]]] && Forest(q) && j in p && q.Keys == p.Keys
    ensures Root(q, j) == Root(p, j)
    decreases j
  {
    assert ParentAt(p, j);
    if p[j] != j {
      assert ParentAt(p, p[j]);
      HalvingKeepsRoot(p, i, q, p[j]);
      if j == i && p[p[j]] != p[j] { HalvingKeepsRoot(p, i, q, p[p[j]]); }
    }
  }

  /** `find`: the root, with every root left where it was. */
  method Find(parent: Parents, i: nat) returns (after: Parents, root: nat)
    requires Forest(parent) && i in parent
    ensures SameRoots(parent, after)
    ensures root == Root(parent, i)
  {
    after, root := parent, i;
    while after[root] != root
      invariant SameRoots(parent, after)
      invariant root in parent && Root(parent, root) == Root(parent, i)
      decreases root
    {
      ghost var before := after;
      assert SameRootAt(parent, before, root);
      HalvingKeepsForest(before, root);
      after := after[root := after[after[root]]];
      forall j ensures SameRootAt(parent, after, j) {
        assert SameRootAt(parent, before, j);
        if j in parent { HalvingKeepsRoot(before, root, after, j); }
      }
      assert SameRootAt(parent, after, root);
      assert SameRootAt(parent, after, after[root]);
      root := after[root];
    }
    assert SameRootAt(parent, after, root);
  }

  // ---------- Connectedness ----------

  predicate Joins(edges: set<Edge>, a: nat, b: nat) {
    Edge(a, b) in edges || Edge(b, a) in edges
  }

  ghost predicate Path(edges: set<Edge>, path: seq<nat>) {
    |path| > 0 && forall k :: 0 < k < |path| ==> Joins(edges, path[k - 1], path[k])
  }

  ghost predicate PathBetween(edges: set<Edge>, path: seq<nat>, a: nat, b: nat) {
    Path(edges, path) && path[0] == a && path[|path| - 1] == b
  }

  /** Joined by a chain of edges, taken in either direction. */
  ghost predicate Connected(edges: set<Edge>, a: nat, b: nat) {
    exists path :: PathBetween(edges, path, a, b)
  }

  lemma {:induction false} ConnectedSelf(edges: set<Edge>, a: nat)
    ensures Connected(edges, a, a)
  {
    assert PathBetween(edges, [a], a, a);
  }

  lemma {:induction false} ConnectedEdge(edges: set<Edge>, a: nat, b: nat)
    requires Joins(edges, a, b)
    ensures Connected(edges, a, b)
  {
    assert PathBetween(edges, [a, b], a, b);
  }

  lemma {:induction false} ConnectedThrough(edges: set<Edge>, a: nat, b: nat, c: nat)
    requires Connected(edges, a, b) && Connected(edges, b, c)
    ensures Connected(edges, a, c)
  {
    var p :| PathBetween(edges, p, a, b);
    var q :| PathBetween(edges, q, b, c);
    var r := p + q[1..];
    forall k | 0 < k < |r| ensures Joins(edges, r[k - 1], r[k]) {
      if k >= |p| { assert r[k] == q[k - |p| + 1] && r[k - 1] == q[k - |p|]; }
    }
    assert PathBetween(edges, r, a, c);
  }

  lemma {:induction false} ConnectedBack(edges: set<Edge>, a: nat, b: nat)
    requires Connected(edges, a, b)
    ensures Connected(edges, b, a)
  {
    var p :| PathBetween(edges, p, a, b);
    var r := seq(|p|, k requires 0 <= k < |p| => p[|p| - 1 - k]);
    forall k | 0 < k < |r| ensures Joins(edges, r[k - 1], r[k]) {
      assert Joins(edges, p[|p| - 1 - k], p[|p| - k]);
    }
    assert PathBetween(edges, r, b, a);
  }

  lemma {:induction false} ConnectedMore(edges: set<Edge>, more: set<Edge>, a: nat, b: nat)
    requires edges <= more && Connected(edges, a, b)
    ensures Connected(more, a, b)
  {
    var p :| PathBetween(edges, p, a, b);
    assert PathBetween(more, p, a, b);
  }

  // ---------- The forest and the edges linked ----------

  ghost predicate EdgeKept(p: Parents, e: Edge)
    requires Forest(p)
  {
    e.from in p && e.to in p && Root(p, e.from) == Root(p, e.to)
  }

  ghost predicate RootReached(p: Parents, edges: set<Edge>, i: nat)
    requires Forest(p)
  {
    i in p ==> Connected(edges, i, Root(p, i))
  }

  /** The trees are the components of the edges. */
  ghost predicate Partition(p: Parents, edges: set<Edge>) {
    && Forest(p)
    && (forall e :: e in edges ==> EdgeKept(p, e))
    && (forall i :: RootReached(p, edges, i))
  }

  lemma {:induction false} PathKeepsRoot(p: Parents, edges: set<Edge>, path: seq<nat>)
    requires Partition(p, edges) && Path(edges, path) && path[0] in p
    ensures path[|path| - 1] in p && Root(p, path[|path| - 1]) == Root(p, path[0])
    decreases |path|
  {
    if |path| > 1 {
      var n := |path| - 1;
      PathKeepsRoot(p, edges, path[..n]);
      assert Joins(edges, path[n - 1], path[n]);
      assert EdgeKept(p, Edge(path[n - 1], path[n])) || EdgeKept(p, Edge(path[n], path[n - 1]));
    }
  }

  /** Two elements share a root exactly when the edges connect them. */
  lemma {:induction false} SameRootExactlyWhenConnected(p: Parents, edges: set<Edge>, a: nat, b: nat)
    requires Partition(p, edges) && a in p && b in p
    ensures Root(p, a) == Root(p, b) <==> Connected(edges, a, b)
  {
    if Root(p, a) == Root(p, b) {
      assert RootReached(p, edges, a) && RootReached(p, edges, b);
      ConnectedBack(edges, b, Root(p, b));
      ConnectedThrough(edges, a, Root(p, a), b);
    }
    if Connected(edges, a, b) {
      var path :| PathBetween(edges, path, a, b);
      PathKeepsRoot(p, edges, path);
    }
  }

  /** The root is the least element of its component. */
  lemma {:induction false} RootIsLeast(p: Parents, edges: set<Edge>, a: nat, b: nat)
    requires Partition(p, edges) && a in p && Connected(edges, a, b)
    ensures b in p && Root(p, a) <= b
    ensures Root(p, a) in p && Connected(edges, a, Root(p, a))
  {
    var path :| PathBetween(edges, path, a, b);
    PathKeepsRoot(p, edges, path);
    RootIsRoot(p, a);
    RootIsRoot(p, b);
    assert RootReached(p, edges, a);
  }

  // ---------- Linking ----------

  lemma {:induction false} LinkKeepsForest(p: Parents, low: nat, high: nat)
    requires Forest(p) && low in p && high in p && low <= high
    ensures Forest(p[high := low]) && p[high := low].Keys == p.Keys
  {
    var q := p[high := low];
    forall j ensures ParentAt(q, j) { assert ParentAt(p, j); }
  }

  lemma {:induction false} LinkRoot(p: Parents, low: nat, high: nat, q: Parents, j: nat)
    requires Forest(p) && low in p && high in p && low <= high && p[low] == low && p[high] == high
    requires q == p[high := low] && Forest(q) && q.Keys == p.Keys && j in p
    ensures Root(q, j) == if Root(p, j) == high then low else Root(p, j)
    decreases j
  {
    assert ParentAt(p, j);
    if p[j] != j {
      LinkRoot(p, low, high, q, p[j]);
    } else if j == high {
      assert q[low] == low;
    }
  }

  lemma {:induction false} HalvingKeepsPartition(p: Parents, q: Parents, edges: set<Edge>)
    requires Partition(p, edges) && SameRoots(p, q)
    ensures Partition(q, edges)
  {
    forall e | e in edges ensures EdgeKept(q, e) {
      assert EdgeKept(p, e) && SameRootAt(p, q, e.from) && SameRootAt(p, q, e.to);
    }
    forall i ensures RootReached(q, edges, i) {
      assert RootReached(p, edges, i) && SameRootAt(p, q, i);
    }
  }

  lemma {:induction false} LinkReaches(p: Parents, edges: set<Edge>, x: nat, y: nat, i: nat)
    requires Partition(p, edges) && x in p && y in p && i in p && Root(p, i) == Root(p, x)
    ensures Connected(edges + {Edge(x, y)}, i, Root(p, y)) && Connected(edges + {Edge(y, x)}, i, Root(p, y))
  {
    SameRootExactlyWhenConnected(p, edges, i, x);
    assert RootReached(p, edges, y);
    forall more | more == edges + {Edge(x, y)} || more == edges + {Edge(y, x)}
      ensures Connected(more, i, Root(p, y))
    {
      ConnectedMore(edges, more, i, x);
      ConnectedEdge(more, x, y);
      ConnectedMore(edges, more, y, Root(p, y));
      ConnectedThrough(more, i, x, y);
      ConnectedThrough(more, i, y, Root(p, y));
    }
  }

  lemma {:induction false} LinkKeepsPartition(p: Parents, edges: set<Edge>, e: Edge, low: nat, high: nat)
    requires Partition(p, edges) && e.from in p && e.to in p && low <= high
    requires (low == Root(p, e.from) && high == Root(p, e.to)) || (low == Root(p, e.to) && high == Root(p, e.from))
    ensures low in p && high in p && Partition(p[high := low], edges + {e})
  {
    RootIsRoot(p, e.from);
    RootIsRoot(p, e.to);
    LinkKeepsForest(p, low, high);
    var q, more := p[high := low], edges + {e};
    forall d | d in more ensures EdgeKept(q, d) {
      assert d in edges ==> EdgeKept(p, d);
      LinkRoot(p, low, high, q, d.from);
      LinkRoot(p, low, high, q, d.to);
    }
    forall i ensures RootReached(q, more, i) {
      if i in p {
        LinkRoot(p, low, high, q, i);
        if Root(p, i) == high {
          if high == Root(p, e.from) { LinkReaches(p, edges, e.from, e.to, i); } else { LinkReaches(p, edges, e.to, e.from, i); }
          if low == high { assert RootReached(p, edges, i); ConnectedMore(edges, more, i, Root(p, i)); }
        } else {
          assert RootReached(p, edges, i);
          ConnectedMore(edges, more, i, Root(p, i));
        }
      }
    }
  }

  /** The two finds and the link of the larger root under the smaller one. */
  method Link(parent: Parents, a: nat, b: nat, ghost edges: set<Edge>) returns (after: Parents)
    requires Partition(parent, edges) && a in parent && b in parent
    ensures Partition(after, edges + {Edge(a, b)}) && after.Keys == parent.Keys
  {
    var halved, x := Find(parent, a);
    HalvingKeepsPartition(parent, halved, edges);
    var again, y := Find(halved, b);
    HalvingKeepsPartition(halved, again, edges);
    assert SameRootAt(parent, halved, a) && SameRootAt(halved, again, a) && SameRootAt(halved, again, b);
    var low, high := if x < y then x else y, if x < y then y else x;
    LinkKeepsPartition(again, edges, Edge(a, b), low, high);
    after := again[high := low];
  }
}
