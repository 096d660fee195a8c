/** The union-find of `identify_clusters` (scripts/tag-dedup.py, lines 244 to 262): it computes the
    connected components of the links it is given. */
module TagUnionFind {

  // ----- what connects two keys

  ghost predicate Adjacent<K(!new)>(links: set<(K, K)>, a: K, b: K) {
    (a, b) in links || (b, a) in links
  }

  /** A walk of n links leads from a to b. */
  ghost predicate Walk<K(!new)>(links: set<(K, K)>, a: K, b: K, n: nat)
    decreases n
  {
    if n == 0 then a == b else exists c :: Adjacent(links, a, c) && Walk(links, c, b, n - 1)
  }

  ghost predicate Connected<K(!new)>(links: set<(K, K)>, a: K, b: K) {
    exists n: nat :: Walk(links, a, b, n)
  }

  lemma {:induction false} WalkOn<K(!new)>(links: set<(K, K)>, a: K, b: K, c: K, m: nat, n: nat)
    requires Walk(links, a, b, m) && Walk(links, b, c, n)
    ensures Walk(links, a, c, m + n)
    decreases m
  {
    if m > 0 {
      var d :| Adjacent(links, a, d) && Walk(links, d, b, m - 1);
      WalkOn(links, d, b, c, m - 1, n);
    }
  }

  lemma {:induction false} WalkBack<K(!new)>(links: set<(K, K)>, a: K, b: K, n: nat)
    requires Walk(links, a, b, n)
    ensures Walk(links, b, a, n)
    decreases n
  {
    if n > 0 {
      var c :| Adjacent(links, a, c) && Walk(links, c, b, n - 1);
      WalkBack(links, c, b, n - 1);
      assert Walk(links, a, a, 0) && Adjacent(links, c, a);
      assert Walk(links, c, a, 1);
      WalkOn(links, b, c, a, n - 1, 1);
    }
  }

  lemma {:induction false} WalkWithMore<K(!new)>(links: set<(K, K)>, more: set<(K, K)>, a: K, b: K, n: nat)
    requires links <= more && Walk(links, a, b, n)
    ensures Walk(more, a, b, n)
    decreases n
  {
    if n > 0 {
      var c :| Adjacent(links, a, c) && Walk(links, c, b, n - 1);
      WalkWithMore(links, more, c, b, n - 1);
      assert Adjacent(more, a, c);
    }
  }

  lemma ConnectedReflexive<K(!new)>(links: set<(K, K)>, a: K)
    ensures Connected(links, a, a)
  {
    assert Walk(links, a, a, 0);
  }

  lemma ConnectedSymmetric<K(!new)>(links: set<(K, K)>, a: K, b: K)
    requires Connected(links, a, b)
    ensures Connected(links, b, a)
  {
    var n: nat :| Walk(links, a, b, n);
    WalkBack(links, a, b, n);
  }

  lemma ConnectedTransitive<K(!new)>(links: set<(K, K)>, a: K, b: K, c: K)
    requires Connected(links, a, b) && Connected(links, b, c)
    ensures Connected(links, a, c)
  {
    var m: nat :| Walk(links, a, b, m);
    var n: nat :| Walk(links, b, c, n);
    WalkOn(links, a, b, c, m, n);
  }

  lemma ConnectedWithMore<K(!new)>(links: set<(K, K)>, more: set<(K, K)>, a: K, b: K)
    requires links <= more && Connected(links, a, b)
    ensures Connected(more, a, b)
  {
    var n: nat :| Walk(links, a, b, n);
    WalkWithMore(links, more, a, b, n);
  }

  lemma ConnectedByLink<K(!new)>(links: set<(K, K)>, a: K, b: K)
    requires Adjacent(links, a, b)
    ensures Connected(links, a, b)
  {
    assert Walk(links, b, b, 0);
    assert Walk(links, a, b, 1);
  }

  // ----- the partition that a forest stands for

  /** What holds of one key of the parent map: `root` names its root, which its parent shares, and
      its parent has a higher rank unless it is a root itself. */
  ghost predicate GoodKey<K(!new)>(parent: map<K, K>, root: map<K, K>, rank: map<K, nat>, bound: nat, k: K) {
    && k in parent && k in root && k in rank && rank[k] <= bound
    && parent[k] in parent && parent[k] in root && parent[k] in rank
    && root[k] in parent && parent[root[k]] == root[k] && root[parent[k]] == root[k]
    && (if parent[k] == k then root[k] == k else rank[k] < rank[parent[k]])
  }

  /** Ranks rise towards the roots, so the parent map has no cycle. */
  ghost predicate Forest<K(!new)>(parent: map<K, K>, root: map<K, K>, rank: map<K, nat>, bound: nat) {
    && root.Keys == parent.Keys == rank.Keys
    && forall k {:trigger GoodKey(parent, root, rank, bound, k)} | k in parent :: GoodKey(parent, root, rank, bound, k)
  }

  lemma KeyIsGood<K(!new)>(parent: map<K, K>, root: map<K, K>, rank: map<K, nat>, bound: nat, key: K)
    requires Forest(parent, root, rank, bound) && key in parent
    ensures GoodKey(parent, root, rank, bound, key) && parent[key] in parent && root[key] in parent
    ensures key in root && key in rank
  {
  }

  lemma HalvingKeepsForest<K(!new)>(parent: map<K, K>, root: map<K, K>, rank: map<K, nat>, bound: nat, key: K)
    requires Forest(parent, root, rank, bound) && key in parent && parent[key] != key
    ensures GoodKey(parent, root, rank, bound, key) && GoodKey(parent, root, rank, bound, parent[key])
    ensures var grandparent := parent[parent[key]];
            && Forest(parent[key := grandparent], root, rank, bound)
            && grandparent in parent && root[grandparent] == root[key] && rank[key] < rank[grandparent]
  {
    hide Forest;
    KeyIsGood(parent, root, rank, bound, key);
    var next := parent[key];
    KeyIsGood(parent, root, rank, bound, next);
    HalvedForest(parent, root, rank, bound, key, next, parent[next]);
  }

  lemma HalvedForest<K(!new)>(parent: map<K, K>, root: map<K, K>, rank: map<K, nat>, bound: nat,
                              key: K, next: K, grandparent: K)
    requires Forest(parent, root, rank, bound)
    requires GoodKey(parent, root, rank, bound, key) && parent[key] == next && next != key
    requires GoodKey(parent, root, rank, bound, next) && parent[next] == grandparent
    ensures Forest(parent[key := grandparent], root, rank, bound)
  {
    assert parent[key := grandparent].Keys == parent.Keys;
    assert forall k | k in parent :: GoodKey(parent, root, rank, bound, k);
    hide GoodKey;
    forall k | k in parent
      ensures GoodKey(parent[key := grandparent], root, rank, bound, k)
    {
      HalvingKeepsKey(parent, root, rank, bound, key, next, grandparent, k);
    }
  }

  lemma HalvingKeepsKey<K(!new)>(parent: map<K, K>, root: map<K, K>, rank: map<K, nat>, bound: nat,
                                 key: K, next: K, grandparent: K, k: K)
    requires GoodKey(parent, root, rank, bound, key) && parent[key] == next && next != key
    requires GoodKey(parent, root, rank, bound, next) && parent[next] == grandparent
    requires GoodKey(parent, root, rank, bound, k)
    ensures GoodKey(parent[key := grandparent], root, rank, bound, k)
  {
  }

  lemma LinkingRootsKeepsForest<K(!new)>(parent: map<K, K>, root: map<K, K>, rank: map<K, nat>, bound: nat, a: K, b: K)
    requires Forest(parent, root, rank, bound) && a in parent && b in parent && root[a] != root[b]
    ensures GoodKey(parent, root, rank, bound, a) && GoodKey(parent, root, rank, bound, b)
    ensures Forest(parent[root[a] := root[b]], Merge(root, a, b), rank[root[b] := rank[root[a]] + rank[root[b]] + 1],
                   bound + rank[root[a]] + 1)
  {
    hide Forest;
    KeyIsGood(parent, root, rank, bound, a);
    KeyIsGood(parent, root, rank, bound, b);
    KeyIsGood(parent, root, rank, bound, root[a]);
    KeyIsGood(parent, root, rank, bound, root[b]);
    LinkedForest(parent, root, rank, bound, a, b, root[a], root[b]);
  }

  lemma LinkedForest<K(!new)>(parent: map<K, K>, root: map<K, K>, rank: map<K, nat>, bound: nat, a: K, b: K, ra: K,
      rb: K)
    requires Forest(parent, root, rank, bound) && a in parent && b in parent && ra == root[a] && rb == root[b]
        && ra != rb
    requires GoodKey(parent, root, rank, bound, ra) && GoodKey(parent, root, rank, bound, rb)
    requires parent[ra] == ra && parent[rb] == rb
    ensures Forest(parent[ra := rb], Merge(root, a, b), rank[rb := rank[ra] + rank[rb] + 1], bound + rank[ra] + 1)
  {
    var root', rank' := Merge(root, a, b), rank[rb := rank[ra] + rank[rb] + 1];
    assert parent[ra := rb].Keys == parent.Keys && root'.Keys == root.Keys && rank'.Keys == rank.Keys;
    forall k | k in parent
      ensures GoodKey(parent[ra := rb], root', rank', bound + rank[ra] + 1, k)
    {
      KeyIsGood(parent, root, rank, bound, k);
      KeyIsGood(parent, root, rank, bound, parent[k]);
      KeyIsGood(parent, root, rank, bound, root[k]);
      hide Forest;
    }
  }

  function Merge<K(==)>(root: map<K, K>, a: K, b: K): map<K, K>
    requires a in root && b in root
  {
    map k | k in root :: if root[k] == root[a] then root[b] else root[k]
  }

  /** Two keys have the same root exactly when the links connect them. */
  ghost predicate RootsAreComponents<K(!new)>(root: map<K, K>, links: set<(K, K)>) {
    && (forall l | l in links :: l.0 in root && l.1 in root && root[l.0] == root[l.1])
    && (forall a, b | a in root && b in root && root[a] == root[b] :: Connected(links, a, b))
  }

  lemma {:induction false} WalkKeepsRoot<K(!new)>(root: map<K, K>, links: set<(K, K)>, a: K, b: K, n: nat)
    requires RootsAreComponents(root, links) && a in root && Walk(links, a, b, n)
    ensures b in root && root[a] == root[b]
  {
    if n > 0 {
      var c :| Adjacent(links, a, c) && Walk(links, c, b, n - 1);
      assert (a, c) in links || (c, a) in links;
      WalkKeepsRoot(root, links, c, b, n - 1);
    }
  }

  lemma SameRootIffConnected<K(!new)>(root: map<K, K>, links: set<(K, K)>, a: K, b: K)
    requires RootsAreComponents(root, links) && a in root
    ensures Connected(links, a, b) <==> b in root && root[a] == root[b]
  {
    if Connected(links, a, b) {
      var n: nat :| Walk(links, a, b, n);
      WalkKeepsRoot(root, links, a, b, n);
    }
  }

  lemma MergeAddsLink<K(!new)>(root: map<K, K>, links: set<(K, K)>, a: K, b: K)
    requires RootsAreComponents(root, links) && a in root && b in root
    ensures RootsAreComponents(Merge(root, a, b), links + {(a, b)})
  {
    var merged, more := Merge(root, a, b), links + {(a, b)};
    forall x, y | x in merged && y in merged && merged[x] == merged[y]
      ensures Connected(more, x, y)
    {
      if root[x] == root[y] {
        ConnectedWithMore(links, more, x, y);
      } else if root[x] == root[a] {
        Across(root, links, a, b, x, y);
      } else {
        Across(root, links, a, b, y, x);
        ConnectedSymmetric(more, y, x);
      }
    }
  }

  lemma Across<K(!new)>(root: map<K, K>, links: set<(K, K)>, a: K, b: K, x: K, y: K)
    requires RootsAreComponents(root, links) && a in root && b in root && x in root && y in root
    requires root[x] == root[a] && root[y] == root[b]
    ensures Connected(links + {(a, b)}, x, y)
  {
    var more := links + {(a, b)};
    ConnectedWithMore(links, more, x, a);
    ConnectedWithMore(links, more, b, y);
    ConnectedByLink(more, a, b);
    ConnectedTransitive(more, x, a, b);
    ConnectedTransitive(more, x, b, y);
  }

  class UnionFind<K(==, !new)> {
    var parent: map<K, K>
    ghost var root: map<K, K>
    ghost var rank: map<K, nat>
    ghost var bound: nat

    ghost predicate Valid()
      reads this
    {
      Forest(parent, root, rank, bound)
    }

    /** Every key is its own component. */
    constructor (keys: set<K>)
      ensures Valid() && parent.Keys == keys && root == map k | k in keys :: k
    {
      parent := map k | k in keys :: k;
      root := map k | k in keys :: k;
      rank := map k | k in keys :: 0;
      bound := 0;
    }

    /** Walks up to the root and halves the path on the way, which leaves the partition as it is. */
    method Find(start: K) returns (key: K)
      requires Valid() && start in parent
      modifies this`parent
      ensures Valid() && parent.Keys == old(parent.Keys)
      ensures key in parent && parent[key] == key == root[start]
    {
      key := start;
      while parent[key] != key
        invariant Valid() && parent.Keys == old(parent.Keys)
        invariant key in parent && root[key] == root[start]
        decreases bound - rank[key]
      {
        HalvingKeepsForest(parent, root, rank, bound, key);
        parent := parent[key := parent[parent[key]]];
        key := parent[key];
        assert GoodKey(parent, root, rank, bound, key);
      }
      assert GoodKey(parent, root, rank, bound, key);
    }

    method Union(a: K, b: K)
      requires Valid() && a in parent && b in parent
      modifies this
      ensures Valid() && parent.Keys == old(parent.Keys)
      ensures root == old(Merge(root, a, b))
    {
      var rootA := Find(a);
      var rootB := Find(b);
      if rootA != rootB {
        LinkingRootsKeepsForest(parent, root, rank, bound, a, b);
        parent := parent[rootA := rootB];
        root := Merge(root, a, b);
        bound := bound + rank[rootA] + 1;
        rank := rank[rootB := rank[rootA] + rank[rootB] + 1];
      } else {
        assert root == Merge(root, a, b);
      }
    }
  }
}
