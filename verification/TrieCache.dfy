/**
 * The in-memory node cache of the trie database as a value: its consistency
 * condition and the effect of each elementary change on it (trie/database.go).
 */
module TrieCache {
  import opened Sums

  type Hash = nat
  type Blob = seq<nat>

  /** The metadata node that holds the references to live roots. */
  const ROOT: Hash := 0
  const HASH_LENGTH := 32

  datatype CachedNode = CachedNode(blob: Blob, parents: int, children: map<Hash, int>)
  type Nodes = map<Hash, CachedNode>
  type Disk = map<Hash, Blob>

  /** What hashes stand for: the blob with that hash and the hashes it refers to.
      The rank makes the reference relation acyclic. */
  datatype Content = Content(blob: Hash -> Blob, kids: Hash -> set<Hash>, rank: Hash -> nat)

  ghost predicate Acyclic(c: Content) {
    forall h, k :: k in c.kids(h) ==> k != ROOT && c.rank(k) < c.rank(h)
  }

  // ----- references to a node -----

  ghost function Referrers(nodes: Nodes, k: Hash): set<Hash> {
    set p | p in nodes && p != ROOT && k in nodes[p].children
  }

  ghost function RootRefs(nodes: Nodes, k: Hash): int {
    if ROOT in nodes && k in nodes[ROOT].children then nodes[ROOT].children[k] else 0
  }

  lemma SameReferrers(a: Nodes, b: Nodes, k: Hash)
    requires a.Keys == b.Keys
    requires forall p :: p in a && p != ROOT ==> (k in a[p].children <==> k in b[p].children)
    ensures Referrers(a, k) == Referrers(b, k)
  {
  }

  lemma MoreReferrers(a: Nodes, b: Nodes, p: Hash, k: Hash)
    requires a.Keys == b.Keys
    requires forall q :: q in a && q != ROOT && q != p ==> (k in a[q].children <==> k in b[q].children)
    requires p in a && p != ROOT && k !in a[p].children && k in b[p].children
    ensures |Referrers(b, k)| == |Referrers(a, k)| + 1
  {
    assert Referrers(b, k) == Referrers(a, k) + {p};
  }

  // ----- the consistency condition -----

  ghost predicate Blobs(c: Content, nodes: Nodes, disk: Disk) {
    && (forall h :: h in nodes && h != ROOT ==> nodes[h].blob == c.blob(h))
    && (forall h :: h in disk ==> disk[h] == c.blob(h))
  }

  /** Cached edges are true references, counted once; edges from the root node
      are positive unless their target is already on disk. */
  ghost predicate Edges(c: Content, nodes: Nodes, disk: Disk) {
    && (forall p, k :: p in nodes && p != ROOT && k in nodes[p].children ==>
          k in c.kids(p) && nodes[p].children[k] == 1)
    && (ROOT in nodes ==> forall k :: k in nodes[ROOT].children ==>
          k != ROOT && (k in disk || nodes[ROOT].children[k] >= 1))
  }

  /** The target of every cached edge can be fetched. */
  ghost predicate Targets(nodes: Nodes, disk: Disk) {
    forall p, k :: p in nodes && k in nodes[p].children ==> k in nodes || k in disk
  }

  /** Every true reference of a cached node is a cached edge or leads to disk.
      Nodes being built or torn down are excused. */
  ghost predicate Tracked(c: Content, nodes: Nodes, disk: Disk, excused: set<Hash>) {
    forall p, k :: p in nodes && p != ROOT && p !in excused && k in c.kids(p) ==>
      k in nodes[p].children || k in disk
  }

  ghost predicate DiskClosed(c: Content, disk: Disk) {
    && ROOT !in disk
    && forall h, k :: h in disk && k in c.kids(h) ==> k in disk
  }

  /** By how much the edges to a node exceed its count. */
  ghost function Gap(nodes: Nodes, k: Hash): int
    requires k in nodes
  {
    |Referrers(nodes, k)| + RootRefs(nodes, k) - nodes[k].parents
  }

  /** Reference counts are exact for nodes that are not on disk. */
  ghost predicate Counts(nodes: Nodes, disk: Disk) {
    forall k :: k in nodes && k != ROOT && k !in disk ==> Gap(nodes, k) == 0
  }

  ghost predicate Shape(c: Content, nodes: Nodes, disk: Disk, excused: set<Hash>) {
    && ROOT in nodes
    && Blobs(c, nodes, disk)
    && Edges(c, nodes, disk)
    && Targets(nodes, disk)
    && Tracked(c, nodes, disk, excused)
    && DiskClosed(c, disk)
  }

  ghost predicate Consistent(c: Content, nodes: Nodes, disk: Disk, excused: set<Hash>) {
    Shape(c, nodes, disk, excused) && Counts(nodes, disk)
  }

  /** Only the edges of p may differ between a and b. */
  ghost predicate SameBut(a: Nodes, b: Nodes, p: Hash) {
    && a.Keys == b.Keys
    && (forall q :: q in a ==> a[q].blob == b[q].blob)
    && (forall q :: q in a && q != p ==> a[q].children == b[q].children)
  }

  lemma ShapeChange(c: Content, a: Nodes, b: Nodes, disk: Disk, excused: set<Hash>, p: Hash)
    requires Shape(c, a, disk, excused) && SameBut(a, b, p) && p in b
    requires forall k :: k in b[p].children ==> k in a || k in disk
    requires p == ROOT ==> forall k :: k in b[p].children ==> k != ROOT && (k in disk || b[p].children[k] >= 1)
    requires p != ROOT ==> forall k :: k in b[p].children ==> k in c.kids(p) && b[p].children[k] == 1
    requires p in excused || a[p].children.Keys <= b[p].children.Keys || p == ROOT
    ensures Shape(c, b, disk, excused)
  {
  }

  // ----- storage size -----

  ghost function SizeOf(c: Content): Hash -> int {
    (h: Hash) => HASH_LENGTH + |c.blob(h)|
  }

  /** The size of all cached nodes; the metadata node is not counted. */
  ghost function CacheSize(c: Content, nodes: Nodes): int {
    Sum(nodes.Keys - {ROOT}, SizeOf(c))
  }

  lemma SizeAfterInsert(c: Content, nodes: Nodes, h: Hash, n: CachedNode)
    requires h !in nodes && h != ROOT
    ensures CacheSize(c, nodes[h := n]) == CacheSize(c, nodes) + HASH_LENGTH + |c.blob(h)|
  {
    assert (nodes[h := n].Keys - {ROOT}) - {h} == nodes.Keys - {ROOT};
    SumSplit(nodes[h := n].Keys - {ROOT}, SizeOf(c), h);
  }

  lemma SizeAfterRemove(c: Content, nodes: Nodes, h: Hash)
    requires h in nodes && h != ROOT
    ensures CacheSize(c, nodes - {h}) == CacheSize(c, nodes) - HASH_LENGTH - |c.blob(h)|
  {
    assert (nodes - {h}).Keys - {ROOT} == (nodes.Keys - {ROOT}) - {h};
    SumSplit(nodes.Keys - {ROOT}, SizeOf(c), h);
  }

  lemma SizeAfterEdge(c: Content, a: Nodes, b: Nodes)
    requires a.Keys == b.Keys
    ensures CacheSize(c, a) == CacheSize(c, b)
  {
  }

  // ----- fetching -----

  predicate Available(nodes: Nodes, disk: Disk, h: Hash) {
    h in nodes || h in disk
  }

  /** A path of true references. */
  ghost predicate IsPath(c: Content, path: seq<Hash>) {
    forall i :: 0 < i < |path| ==> path[i] in c.kids(path[i-1])
  }

  /** The whole trie below r can be read back, node by node. */
  ghost predicate Complete(c: Content, nodes: Nodes, disk: Disk, r: Hash) {
    forall path :: IsPath(c, path) && |path| > 0 && path[0] == r ==>
      Retrievable(c, nodes, disk, path[|path|-1])
  }

  ghost predicate Retrievable(c: Content, nodes: Nodes, disk: Disk, h: Hash) {
    Available(nodes, disk, h) && Fetch(nodes, disk, h) == c.blob(h)
  }

  /** Database.Node: the cache first, the disk otherwise. */
  function Fetch(nodes: Nodes, disk: Disk, h: Hash): Blob
    requires Available(nodes, disk, h)
  {
    if h in nodes then nodes[h].blob else disk[h]
  }

  lemma {:induction false} PathAvailable(c: Content, nodes: Nodes, disk: Disk, path: seq<Hash>)
    requires Acyclic(c) && Consistent(c, nodes, disk, {})
    requires IsPath(c, path) && |path| > 0
    requires path[0] != ROOT && Available(nodes, disk, path[0])
    ensures path[|path|-1] != ROOT && Available(nodes, disk, path[|path|-1])
  {
    if |path| > 1 {
      var front := path[..|path|-1];
      PathAvailable(c, nodes, disk, front);
      var p, k := path[|path|-2], path[|path|-1];
      assert front[|front|-1] == p && k in c.kids(p);
      assert c.rank(k) < c.rank(p);
      assert p in nodes ==> k in nodes[p].children || k in disk;
    }
  }

  /** In a consistent cache everything that can be fetched is complete. */
  lemma AvailableIsComplete(c: Content, nodes: Nodes, disk: Disk, h: Hash)
    requires Acyclic(c) && Consistent(c, nodes, disk, {})
    requires h != ROOT && Available(nodes, disk, h)
    ensures Complete(c, nodes, disk, h)
  {
    forall path | IsPath(c, path) && |path| > 0 && path[0] == h
      ensures Retrievable(c, nodes, disk, path[|path|-1])
    {
      PathAvailable(c, nodes, disk, path);
    }
  }

  // ----- what hangs off what -----

  /** A path of true references leads from r to q. */
  ghost predicate IsBelow(c: Content, r: Hash, q: Hash) {
    exists path :: IsPath(c, path) && |path| > 0 && path[0] == r && path[|path|-1] == q
  }

  lemma BelowItself(c: Content, r: Hash)
    ensures IsBelow(c, r, r)
  {
    var path := [r];
    assert IsPath(c, path) && path[0] == r && path[|path|-1] == r;
  }

  /** What is below a child is below its parent. */
  lemma BelowKid(c: Content, r: Hash, k: Hash, q: Hash)
    requires k in c.kids(r) && IsBelow(c, k, q)
    ensures IsBelow(c, r, q)
  {
    var path :| IsPath(c, path) && |path| > 0 && path[0] == k && path[|path|-1] == q;
    var longer := [r] + path;
    assert IsPath(c, longer) && longer[0] == r && longer[|longer|-1] == q;
  }

  /** And so is a child of what is below. */
  lemma KidBelow(c: Content, r: Hash, p: Hash, k: Hash)
    requires IsBelow(c, r, p) && k in c.kids(p)
    ensures IsBelow(c, r, k)
  {
    var path :| IsPath(c, path) && |path| > 0 && path[0] == r && path[|path|-1] == p;
    var longer := path + [k];
    assert IsPath(c, longer) && longer[0] == r && longer[|longer|-1] == k;
  }

  /** A cached edge or a root reference leads to the node. */
  ghost predicate IsReferenced(nodes: Nodes, k: Hash) {
    RootRefs(nodes, k) != 0 || Referrers(nodes, k) != {}
  }

  /** No garbage: what is cached and not on disk is referenced, except for the given nodes. */
  ghost predicate Tidy(nodes: Nodes, disk: Disk, except: set<Hash>) {
    forall k :: k in nodes && k != ROOT && k !in disk && k !in except ==> IsReferenced(nodes, k)
  }

  ghost function Higher(c: Content, nodes: Nodes, k: Hash): set<Hash> {
    set p | p in nodes && c.rank(p) > c.rank(k)
  }

  /** Without garbage, whatever is cached and not on disk hangs off a referenced root. */
  lemma {:induction false} TidyIsRooted(c: Content, nodes: Nodes, disk: Disk, k: Hash) returns (r: Hash)
    requires Acyclic(c) && Consistent(c, nodes, disk, {}) && Tidy(nodes, disk, {})
    requires k in nodes && k != ROOT && k !in disk
    ensures RootRefs(nodes, r) >= 1 && IsBelow(c, r, k)
    decreases Higher(c, nodes, k)
  {
    if RootRefs(nodes, k) != 0 {
      BelowItself(c, k);
      return k;
    }
    var p :| p in Referrers(nodes, k);
    assert k in c.kids(p) && c.rank(k) < c.rank(p) && p !in disk;
    assert p in Higher(c, nodes, k) && p !in Higher(c, nodes, p);
    r := TidyIsRooted(c, nodes, disk, p);
    KidBelow(c, r, p, k);
  }

  /** What is below a node on disk is on disk. */
  lemma {:induction false} BelowOnDisk(c: Content, disk: Disk, path: seq<Hash>)
    requires DiskClosed(c, disk) && IsPath(c, path) && |path| > 0 && path[0] in disk
    ensures path[|path|-1] in disk
  {
    if |path| > 1 {
      var front := path[..|path|-1];
      BelowOnDisk(c, disk, front);
      assert path[|path|-1] in c.kids(front[|front|-1]);
    }
  }

  /** A commit leaves no garbage: nodes leave only for the disk, which is closed. */
  lemma TidyAfterCommit(c: Content, before: Nodes, stored: Disk, nodes: Nodes, disk: Disk, except: set<Hash>)
    requires Consistent(c, before, stored, {}) && Consistent(c, nodes, disk, {}) && stored.Keys <= disk.Keys
    requires forall h :: h in nodes ==> h in before && nodes[h] == before[h]
    requires forall h :: h in before && h !in nodes ==> h in disk
    requires Tidy(before, stored, except)
    ensures Tidy(nodes, disk, except)
  {
    forall k | k in nodes && k != ROOT && k !in disk && k !in except ensures IsReferenced(nodes, k) {
      assert IsReferenced(before, k) && RootRefs(nodes, k) == RootRefs(before, k);
      if RootRefs(before, k) == 0 {
        var p :| p in Referrers(before, k);
        assert p in Referrers(nodes, k);
      }
    }
  }

  /** Storing new nodes leaves no garbage except the top, if each other one is a child of one
      that is cached. */
  lemma TidyAfterBuild(c: Content, before: Nodes, nodes: Nodes, disk: Disk, stores: set<Hash>, top: Hash)
    requires Consistent(c, nodes, disk, {}) && Tidy(before, disk, {})
    requires nodes.Keys == before.Keys + stores && forall r :: RootRefs(nodes, r) == RootRefs(before, r)
    requires forall h :: h in before ==> before[h].children.Keys <= nodes[h].children.Keys
    requires forall h :: h in stores ==> h != ROOT && (h == top || exists p :: p in stores && h in c.kids(p))
    ensures Tidy(nodes, disk, {top})
  {
    forall k | k in nodes && k != ROOT && k !in disk && k != top ensures IsReferenced(nodes, k) {
      if k in before {
        assert IsReferenced(before, k);
        if RootRefs(before, k) == 0 {
          var p :| p in Referrers(before, k);
          assert p in Referrers(nodes, k);
        }
      } else {
        var p :| p in stores && k in c.kids(p);
        assert p in Referrers(nodes, k);
      }
    }
  }

  lemma NoneExcused(nodes: Nodes, disk: Disk, except: set<Hash>)
    requires Tidy(nodes, disk, except) && forall k :: k in except ==> k in disk
    ensures Tidy(nodes, disk, {})
  {
  }

  lemma RootEdge(c: Content, nodes: Nodes, disk: Disk, r: Hash)
    requires Consistent(c, nodes, disk, {})
    ensures ROOT in nodes && (r in disk || r !in nodes[ROOT].children || nodes[ROOT].children[r] >= 1)
  {
  }

  /** A referenced root is no garbage. */
  lemma TidyAfterReference(nodes: Nodes, disk: Disk, r: Hash)
    requires ROOT in nodes && r != ROOT && Tidy(nodes, disk, {r})
    requires r in disk || r !in nodes[ROOT].children || nodes[ROOT].children[r] >= 1
    ensures Tidy(if r in nodes then AddEdge(nodes, ROOT, r) else nodes, disk, {})
  {
    if r in nodes {
      var after := AddEdge(nodes, ROOT, r);
      forall k | k in after && k != ROOT && k !in disk ensures IsReferenced(after, k) {
        SameReferrers(nodes, after, k);
        assert k != r ==> IsReferenced(nodes, k) && RootRefs(after, k) == RootRefs(nodes, k);
      }
    }
  }

  /** The counts that were not zero are not zero. */
  ghost predicate NoNewZero(before: Nodes, after: Nodes) {
    forall k :: k in before && k in after && after[k].parents == 0 ==> before[k].parents == 0
  }

  /** All the given nodes are below r. */
  ghost predicate AllBelow(c: Content, r: Hash, moved: set<Hash>) {
    forall k :: k in moved ==> IsBelow(c, r, k)
  }

  lemma NoneMoved(c: Content, r: Hash, moved: set<Hash>)
    requires moved == {}
    ensures AllBelow(c, r, moved)
  {
  }

  lemma AllBelowKid(c: Content, r: Hash, k: Hash, a: set<Hash>, b: set<Hash>, moved: set<Hash>)
    requires AllBelow(c, r, a) && AllBelow(c, k, b) && k in c.kids(r) && moved <= a + b
    ensures AllBelow(c, r, moved)
  {
    forall q | q in moved ensures IsBelow(c, r, q) {
      if q in b {
        BelowKid(c, r, k, q);
      }
    }
  }

  lemma AllBelowItself(c: Content, r: Hash, a: set<Hash>, moved: set<Hash>)
    requires AllBelow(c, r, a) && moved <= a + {r}
    ensures AllBelow(c, r, moved)
  {
    BelowItself(c, r);
  }

  /** A node that leaves takes the targets of its edges along. */
  ghost predicate TakenAlong(before: Nodes, after: Nodes) {
    forall h, k :: h in before && h !in after && k in before[h].children ==> k !in after
  }

  lemma NoneTaken(nodes: Nodes)
    ensures TakenAlong(nodes, nodes)
  {
  }

  lemma MoreTaken(a: Nodes, b: Nodes, after: Nodes)
    requires TakenAlong(a, b) && TakenAlong(b, after) && after.Keys <= b.Keys
    requires forall h :: h in b ==> h in a && b[h] == a[h]
    ensures TakenAlong(a, after)
  {
  }

  lemma LastTaken(a: Nodes, b: Nodes, hash: Hash)
    requires TakenAlong(a, b) && hash in b && hash in a && b[hash] == a[hash]
    requires forall k :: k in b[hash].children ==> k !in b
    ensures TakenAlong(a, b - {hash})
  {
  }

  /** Garbage collection is exact: among the referenced nodes that are not on disk, those that
      stay are the ones still referenced. */
  lemma CollectedExactly(c: Content, before: Nodes, after: Nodes, disk: Disk, k: Hash)
    requires Consistent(c, before, disk, {}) && Consistent(c, after, disk, {}) && NoNewZero(before, after)
    requires k in before && k != ROOT && k !in disk && IsReferenced(before, k)
    ensures k in after <==> IsReferenced(after, k)
  {
    assert Gap(before, k) == 0;
    if k in after {
      assert Gap(after, k) == 0;
      if RootRefs(before, k) == 0 {
        assert |Referrers(before, k)| > 0;
      }
    } else {
      assert Referrers(after, k) == {};
    }
  }

  // ----- elementary changes -----

  lemma EdgeIsKid(c: Content, nodes: Nodes, disk: Disk, excused: set<Hash>, p: Hash, k: Hash)
    requires Acyclic(c) && Consistent(c, nodes, disk, excused)
    requires p in nodes && p != ROOT && k in nodes[p].children
    ensures nodes[p].children[k] == 1 && k != ROOT && c.rank(k) < c.rank(p) && k in c.kids(p)
  {
    assert k in c.kids(p);
    assert c.rank(k) < c.rank(p);
  }

  lemma Excuse(c: Content, nodes: Nodes, disk: Disk, excused: set<Hash>, h: Hash)
    requires Consistent(c, nodes, disk, excused)
    ensures Consistent(c, nodes, disk, excused + {h})
  {
  }

  // ----- the counts of all nodes, on disk or not -----

  /** A new node's count is exact if and only if nothing refers to it; the others are untouched. */
  lemma CountAfterInsert(nodes: Nodes, h: Hash, blob: Blob)
    requires h !in nodes && h != ROOT
    ensures var after := nodes[h := CachedNode(blob, 0, map[])];
            && (Gap(after, h) == 0 <==> |Referrers(nodes, h)| + RootRefs(nodes, h) == 0)
            && forall q :: q in nodes && q != ROOT ==> Gap(after, q) == Gap(nodes, q)
  {
    var after := nodes[h := CachedNode(blob, 0, map[])];
    forall k ensures Referrers(after, k) == Referrers(nodes, k) && RootRefs(after, k) == RootRefs(nodes, k) {}
  }

  /** A new edge leaves every count as exact as it was. */
  lemma CountAfterEdge(nodes: Nodes, p: Hash, k: Hash, q: Hash)
    requires ROOT in nodes && p in nodes && k in nodes && k != ROOT && p != k && q in nodes && q != ROOT
    requires p != ROOT ==> k !in nodes[p].children
    ensures q in AddEdge(nodes, p, k) && Gap(AddEdge(nodes, p, k), q) == Gap(nodes, q)
  {
    var after := AddEdge(nodes, p, k);
    assert after.Keys == nodes.Keys;
    assert forall q :: q in nodes && q != p ==> after[q].children == nodes[q].children;
    assert after[p].children.Keys == nodes[p].children.Keys + {k};
    if q == k && p != ROOT {
      MoreReferrers(nodes, after, p, k);
    } else {
      SameReferrers(nodes, after, q);
    }
  }

  /** A dropped edge leaves every count as exact as it was. */
  lemma CountAfterDrop(nodes: Nodes, p: Hash, k: Hash, q: Hash)
    requires ROOT in nodes && p in nodes && k != ROOT && p != k && q in nodes && q != ROOT
    requires p != ROOT ==> k in nodes[p].children && nodes[p].children[k] == 1
    ensures q in DropEdge(nodes, p, k) && Gap(DropEdge(nodes, p, k), q) == Gap(nodes, q)
  {
    var after := DropEdge(nodes, p, k);
    assert after.Keys == nodes.Keys;
    assert forall q :: q in nodes && q != p ==> after[q].children == nodes[q].children;
    assert forall q :: q != k ==> (q in after[p].children <==> q in nodes[p].children);
    if q == k && p != ROOT {
      MoreReferrers(after, nodes, p, k);
    } else {
      SameReferrers(nodes, after, q);
    }
  }

  /** A removed node takes its edges along without counting them off: an exact count stays
      exact if and only if the removed node had no edge there. */
  lemma CountAfterRemoval(nodes: Nodes, h: Hash, q: Hash)
    requires h in nodes && h != ROOT && q in nodes && q != h && q != ROOT
    ensures q in nodes - {h}
    ensures Gap(nodes - {h}, q) == Gap(nodes, q) - (if q in nodes[h].children then 1 else 0)
  {
    var after := nodes - {h};
    assert Referrers(after, q) == Referrers(nodes, q) - {h};
  }

  /** A new node has no referrers yet, so a zero count is exact. */
  lemma InsertKeeps(c: Content, nodes: Nodes, disk: Disk, h: Hash)
    requires Consistent(c, nodes, disk, {}) && h !in nodes && h != ROOT
    ensures Consistent(c, nodes[h := CachedNode(c.blob(h), 0, map[])], disk, {h})
  {
    var after := nodes[h := CachedNode(c.blob(h), 0, map[])];
    forall k ensures Referrers(after, k) == Referrers(nodes, k) && RootRefs(after, k) == RootRefs(nodes, k) {}
    if h !in disk {
      assert Referrers(nodes, h) == {};
    }
  }

  lemma Finished(c: Content, nodes: Nodes, disk: Disk, h: Hash)
    requires Consistent(c, nodes, disk, {h}) && h in nodes
    requires forall k :: k in c.kids(h) ==> k in nodes[h].children || k in disk
    ensures Consistent(c, nodes, disk, {})
  {
  }

  /** A node has got edges to the given cached nodes, each counted there once unless it had
      the edge before; nothing else has changed. */
  ghost predicate Wired(base: Nodes, nodes: Nodes, h: Hash, kids: set<Hash>) {
    && nodes.Keys == base.Keys && h in base
    && nodes[h].parents == base[h].parents && nodes[h].blob == base[h].blob
    && nodes[h].children.Keys == base[h].children.Keys + kids * base.Keys
    && forall q :: q in base && q != h ==>
         nodes[q] == base[q].(parents := base[q].parents + if q in kids && q !in base[h].children then 1 else 0)
  }

  lemma WiredStart(base: Nodes, h: Hash)
    requires h in base
    ensures Wired(base, base, h, {})
  {
  }

  lemma WiredStep(base: Nodes, nodes: Nodes, h: Hash, kids: set<Hash>, k: Hash)
    requires Wired(base, nodes, h, kids) && k !in kids && k != h && h in nodes
    ensures var after := if k in nodes && k !in nodes[h].children then AddEdge(nodes, h, k) else nodes;
            Wired(base, after, h, kids + {k})
  {
  }

  lemma WiredRoots(base: Nodes, nodes: Nodes, h: Hash, kids: set<Hash>)
    requires Wired(base, nodes, h, kids) && h != ROOT && ROOT in base
    ensures forall r :: RootRefs(nodes, r) == RootRefs(base, r)
  {
  }

  function AddEdge(nodes: Nodes, p: Hash, k: Hash): Nodes
    requires p in nodes && k in nodes
  {
    var kid := nodes[k].(parents := nodes[k].parents + 1);
    var count := if k in nodes[p].children then nodes[p].children[k] else 0;
    var parent := nodes[p].(children := nodes[p].children[k := count + 1]);
    nodes[k := kid][p := parent]
  }

  lemma AddEdgeCounts(nodes: Nodes, disk: Disk, p: Hash, k: Hash)
    requires ROOT in nodes && Counts(nodes, disk)
    requires p in nodes && k in nodes && k != ROOT && p != k
    requires p != ROOT ==> k !in nodes[p].children
    ensures Counts(AddEdge(nodes, p, k), disk)
  {
    var after := AddEdge(nodes, p, k);
    forall q | q in after && q != ROOT && q !in disk ensures Gap(after, q) == 0 {
      CountAfterEdge(nodes, p, k, q);
    }
  }

  lemma AddEdgeShape(c: Content, nodes: Nodes, disk: Disk, p: Hash, k: Hash, excused: set<Hash>)
    requires Shape(c, nodes, disk, excused)
    requires p in nodes && k in nodes && k != ROOT && p != k
    requires p != ROOT ==> k in c.kids(p) && k !in nodes[p].children
    ensures Shape(c, AddEdge(nodes, p, k), disk, excused)
  {
    var after := AddEdge(nodes, p, k);
    assert SameBut(nodes, after, p);
    assert forall q :: q in after[p].children && q != k ==>
        q in nodes[p].children && after[p].children[q] == nodes[p].children[q];
    ShapeChange(c, nodes, after, disk, excused, p);
  }

  lemma AddEdgeKeeps(c: Content, nodes: Nodes, disk: Disk, p: Hash, k: Hash, excused: set<Hash>)
    requires Consistent(c, nodes, disk, excused)
    requires p in nodes && k in nodes && k != ROOT && p != k
    requires p != ROOT ==> k in c.kids(p) && k !in nodes[p].children
    ensures Consistent(c, AddEdge(nodes, p, k), disk, excused)
  {
    AddEdgeCounts(nodes, disk, p, k);
    AddEdgeShape(c, nodes, disk, p, k, excused);
  }

  /** One reference less; a map key that reaches zero is deleted. As in Go, a
      missing key counts as zero before the decrement. */
  function Decrement(children: map<Hash, int>, k: Hash): map<Hash, int> {
    var count := if k in children then children[k] else 0;
    if count - 1 == 0 then children - {k} else children[k := count - 1]
  }

  function DropEdge(nodes: Nodes, p: Hash, k: Hash): Nodes
    requires p in nodes && p != k
  {
    var cut := nodes[p := nodes[p].(children := Decrement(nodes[p].children, k))];
    if k in nodes then cut[k := nodes[k].(parents := nodes[k].parents - 1)] else cut
  }

  /** A dropped edge changes the two ends only. */
  lemma DropEdgeIs(nodes: Nodes, p: Hash, k: Hash)
    requires p in nodes && p != k
    ensures var after := DropEdge(nodes, p, k);
            && after.Keys == nodes.Keys
            && after[p] == nodes[p].(children := Decrement(nodes[p].children, k))
            && (k in nodes ==> after[k] == nodes[k].(parents := nodes[k].parents - 1))
            && forall q :: q in nodes && q != p && q != k ==> after[q] == nodes[q]
  {
  }

  predicate HasReference(nodes: Nodes, p: Hash, k: Hash)
    requires p in nodes
  {
    k in nodes[p].children && nodes[p].children[k] >= 1
  }

  lemma DropEdgeCounts(nodes: Nodes, disk: Disk, p: Hash, k: Hash)
    requires ROOT in nodes && Counts(nodes, disk)
    requires p in nodes && k != ROOT && p != k
    requires k in disk || HasReference(nodes, p, k)
    requires p != ROOT ==> k in nodes[p].children && nodes[p].children[k] == 1
    ensures Counts(DropEdge(nodes, p, k), disk)
  {
    var after := DropEdge(nodes, p, k);
    forall q | q in after && q != ROOT && q !in disk ensures Gap(after, q) == 0 {
      CountAfterDrop(nodes, p, k, q);
    }
  }

  lemma DropEdgeShape(c: Content, nodes: Nodes, disk: Disk, p: Hash, k: Hash, excused: set<Hash>)
    requires Shape(c, nodes, disk, excused)
    requires p in nodes && k != ROOT && p != k
    requires p == ROOT ==> k in disk || HasReference(nodes, p, k)
    requires p != ROOT ==> p in excused && k in nodes[p].children
    ensures Shape(c, DropEdge(nodes, p, k), disk, excused)
  {
    var after := DropEdge(nodes, p, k);
    assert SameBut(nodes, after, p);
    assert forall q :: q in after[p].children && q != k ==>
        q in nodes[p].children && after[p].children[q] == nodes[p].children[q];
    ShapeChange(c, nodes, after, disk, excused, p);
  }

  lemma DropEdgeKeeps(c: Content, nodes: Nodes, disk: Disk, p: Hash, k: Hash, excused: set<Hash>)
    requires Consistent(c, nodes, disk, excused)
    requires p in nodes && k != ROOT && p != k
    requires p == ROOT ==> k in disk || HasReference(nodes, p, k)
    requires p != ROOT ==> p in excused && k in nodes[p].children
    ensures Consistent(c, DropEdge(nodes, p, k), disk, excused)
  {
    DropEdgeCounts(nodes, disk, p, k);
    DropEdgeShape(c, nodes, disk, p, k, excused);
  }

  /** A node torn down to no edges, with no references left, can go. */
  lemma RemoveUnreferenced(c: Content, nodes: Nodes, disk: Disk, h: Hash, excused: set<Hash>)
    requires Consistent(c, nodes, disk, excused + {h})
    requires h in nodes && h != ROOT && nodes[h].children == map[] && nodes[h].parents == 0
    ensures Consistent(c, nodes - {h}, disk, excused) && nodes[h].blob == c.blob(h)
  {
    var after := nodes - {h};
    forall q ensures Referrers(after, q) == Referrers(nodes, q) && RootRefs(after, q) == RootRefs(nodes, q) {}
    if h !in disk {
      assert |Referrers(nodes, h)| + RootRefs(nodes, h) == 0;
      assert Referrers(nodes, h) == {};
    }
  }

  /** A node that is on disk can leave the cache at any time. */
  lemma RemoveOnDisk(c: Content, nodes: Nodes, disk: Disk, h: Hash, excused: set<Hash>)
    requires Consistent(c, nodes, disk, excused)
    requires h in nodes && h in disk
    ensures Consistent(c, nodes - {h}, disk, excused) && nodes[h].blob == c.blob(h)
  {
    var after := nodes - {h};
    forall q | q in after && q !in disk
      ensures Referrers(after, q) == Referrers(nodes, q) && RootRefs(after, q) == RootRefs(nodes, q) {}
  }

  /** Writing more nodes to disk keeps the cache consistent as long as the
      disk stays closed under references. */
  lemma DiskGrows(c: Content, nodes: Nodes, disk: Disk, more: Disk)
    requires Consistent(c, nodes, disk, {})
    requires forall h :: h in more ==> more[h] == c.blob(h)
    requires DiskClosed(c, disk + more)
    ensures Consistent(c, nodes, disk + more, {})
  {
  }

  lemma EdgeTarget(c: Content, nodes: Nodes, disk: Disk, p: Hash, k: Hash)
    requires Consistent(c, nodes, disk, {}) && p in nodes && k in nodes[p].children
    ensures k in nodes || k in disk
  {
  }

  /** A cached node whose edges all lead to the disk or the batch can join the batch. */
  lemma BatchPut(c: Content, nodes: Nodes, disk: Disk, batch: Disk, h: Hash)
    requires Acyclic(c) && Consistent(c, nodes, disk, {}) && h in nodes && h != ROOT
    requires DiskClosed(c, disk + batch)
    requires forall k :: k in nodes[h].children ==> k in disk || k in batch
    ensures DiskClosed(c, disk + batch[h := nodes[h].blob]) && nodes[h].blob == c.blob(h)
  {
    var after := disk + batch[h := nodes[h].blob];
    forall p, k | p in after && k in c.kids(p) ensures k in after {
      if p == h {
        assert k in nodes[h].children || k in disk;
        assert k in disk || k in batch;
      } else {
        assert p in disk + batch;
        assert k in disk + batch;
      }
    }
  }

  lemma EmptyBatch(c: Content, disk: Disk)
    requires DiskClosed(c, disk)
    ensures DiskClosed(c, disk + map[])
  {
    assert disk + map[] == disk;
  }

  lemma RootCached(c: Content, nodes: Nodes, disk: Disk)
    requires Consistent(c, nodes, disk, {})
    ensures ROOT in nodes
  {
  }

  lemma RootNotStored(c: Content, disk: Disk)
    requires DiskClosed(c, disk)
    ensures ROOT !in disk
  {
  }

  lemma StoredClosed(c: Content, nodes: Nodes, disk: Disk)
    requires Consistent(c, nodes, disk, {})
    ensures DiskClosed(c, disk)
  {
  }

  lemma KidsStored(c: Content, nodes: Nodes, disk: Disk, h: Hash, k: Hash)
    requires Consistent(c, nodes, disk, {})
    requires h in nodes && h in disk && k in nodes[h].children
    ensures k in disk
  {
    assert k in c.kids(h);
  }

  /** Moving nodes from the cache to the disk changes no answer. */
  lemma SameAnswers(c: Content, nodes: Nodes, disk: Disk, nodes': Nodes, disk': Disk)
    requires Consistent(c, nodes, disk, {}) && Consistent(c, nodes', disk', {})
    requires nodes'.Keys <= nodes.Keys && disk.Keys <= disk'.Keys <= disk.Keys + nodes.Keys && ROOT !in disk'
    requires forall h :: h in nodes' ==> nodes'[h] == nodes[h]
    requires forall h :: h in nodes && h !in nodes' ==> h in disk'
    ensures forall h :: Available(nodes', disk', h) <==> Available(nodes, disk, h)
    ensures forall h :: Available(nodes', disk', h) ==> Fetch(nodes', disk', h) == Fetch(nodes, disk, h)
    ensures forall r :: RootRefs(nodes', r) == RootRefs(nodes, r)
  {
  }
}
