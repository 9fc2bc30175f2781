/**
 * The trie database: a write-back cache of reference-counted trie nodes in
 * front of a persistent store (trie/database.go, trie/hasher.go store).
 */
module TrieDatabase {
  import opened Sums
  import opened TrieCache

  const IDEAL_BATCH_SIZE := 100 * 1024

  class Database {
    /** What the hashes mean; fixed for the lifetime of the database. */
    const content: Content

    var nodes: Nodes
    var nodesSize: int
    var disk: Disk

    /** Number of batch writes the disk still accepts before it fails. */
    var writesLeft: nat
    /** The contents of the disk after each batch write so far. */
    ghost var flushes: seq<Disk>

    ghost predicate ValidExcept(excused: set<Hash>)
      reads this
    {
      && Acyclic(content)
      && Consistent(content, nodes, disk, excused)
      && nodesSize == CacheSize(content, nodes)
      && forall i :: 0 <= i < |flushes| ==> DiskClosed(content, flushes[i])
    }

    ghost predicate Valid()
      reads this
    {
      ValidExcept({})
    }

    /** NewDatabase: an empty cache over a disk that holds only whole tries. */
    constructor (content: Content, disk: Disk, writesLeft: nat)
      requires Acyclic(content) && DiskClosed(content, disk)
      requires forall h :: h in disk ==> disk[h] == content.blob(h)
      ensures Valid() && this.content == content && this.disk == disk
      ensures nodes == map[ROOT := CachedNode([], 0, map[])] && flushes == []
    {
      this.content := content;
      this.disk := disk;
      this.writesLeft := writesLeft;
      nodes := map[ROOT := CachedNode([], 0, map[])];
      nodesSize := 0;
      flushes := [];
      new;
      assert nodes.Keys - {ROOT} == {};
    }

    /** Node: the cached blob if there is one, the stored one otherwise. */
    method Node(hash: Hash) returns (found: bool, blob: Blob)
      requires Valid()
      ensures found == Available(nodes, disk, hash)
      ensures found ==> blob == Fetch(nodes, disk, hash)
      ensures found && hash != ROOT ==> blob == content.blob(hash)
    {
      if hash in nodes {
        return true, nodes[hash].blob;
      } else if hash in disk {
        return true, disk[hash];
      }
      return false, [];
    }

    // ----- building -----

    method Insert(hash: Hash, blob: Blob)
      requires Valid() && hash != ROOT && blob == content.blob(hash)
      modifies this`nodes, this`nodesSize
      ensures ValidExcept({hash}) && hash in nodes
      ensures hash in old(nodes) ==> nodes == old(nodes)
      ensures hash !in old(nodes) ==>
                nodes == old(nodes)[hash := CachedNode(blob, 0, map[])] && nodesSize == old(nodesSize) + 32 + |blob|
    {
      if hash in nodes {
        return;
      }
      InsertKeeps(content, nodes, disk, hash);
      SizeAfterInsert(content, nodes, hash, CachedNode(blob, 0, map[]));
      nodes := nodes[hash := CachedNode(blob, 0, map[])];
      nodesSize := nodesSize + HASH_LENGTH + |blob|;
    }

    /** reference: skips children that are not cached, and counts an edge from
        an ordinary node only once. */
    method Reference(child: Hash, parent: Hash, ghost excused: set<Hash>)
      requires ValidExcept(excused) && parent in nodes && child != ROOT
      requires parent != ROOT ==> child in content.kids(parent)
      modifies this`nodes
      ensures ValidExcept(excused)
      ensures nodes == if child in old(nodes) && (parent == ROOT || child !in old(nodes)[parent].children)
                       then AddEdge(old(nodes), parent, child) else old(nodes)
    {
      hide Blobs, Edges, Targets, Tracked, DiskClosed, Counts, CacheSize;
      if child !in nodes {
        return;
      }
      if child in nodes[parent].children && parent != ROOT {
        return;
      }
      assert child != parent by { assert parent != ROOT ==> content.rank(child) < content.rank(parent); }
      AddEdgeKeeps(content, nodes, disk, parent, child, excused);
      SizeAfterEdge(content, nodes, AddEdge(nodes, parent, child));
      nodes := AddEdge(nodes, parent, child);
    }

    /** store: inserts a node and references all its children, which must be
        cached or on disk. */
    method Store(hash: Hash, blob: Blob, children: set<Hash>)
      requires Valid() && hash != ROOT && blob == content.blob(hash) && children == content.kids(hash)
      requires forall k :: k in children ==> Available(nodes, disk, k)
      modifies this`nodes, this`nodesSize
      ensures Valid() && nodes.Keys == old(nodes).Keys + {hash}
      ensures forall r :: RootRefs(nodes, r) == RootRefs(old(nodes), r)
      ensures hash !in old(nodes) ==> Wired(old(nodes)[hash := CachedNode(blob, 0, map[])], nodes, hash, children)
      ensures hash in old(nodes) ==> Wired(old(nodes), nodes, hash, children)
    {
      hide Blobs, Edges, Targets, Tracked, DiskClosed, Counts, CacheSize, Wired;
      Insert(hash, blob);
      ghost var base := nodes;
      WiredStart(base, hash);
      var todo := children;
      assert children - todo == {};
      while todo != {}
        invariant ValidExcept({hash}) && todo <= children
        invariant nodes.Keys == old(nodes).Keys + {hash} && Wired(base, nodes, hash, children - todo)
        invariant forall k :: k in children - todo ==> k in nodes[hash].children || k in disk
        decreases todo
      {
        var k :| k in todo;
        assert content.rank(k) < content.rank(hash);
        WiredStep(base, nodes, hash, children - todo, k);
        Reference(k, hash, {hash});
        assert children - (todo - {k}) == children - todo + {k};
        todo := todo - {k};
      }
      assert children - todo == children;
      WiredRoots(base, nodes, hash, children);
      Finished(content, nodes, disk, hash);
    }

    // ----- garbage collection -----

    /** dereference: takes one reference away and tears the child down when it
        was the last one. The nodes being torn down are `dying`. */
    method Drop(child: Hash, parent: Hash, ghost dying: set<Hash>)
      requires ValidExcept(dying) && parent in nodes && child != ROOT
      requires parent == ROOT ==> child in disk || HasReference(nodes, ROOT, child)
      requires parent != ROOT ==> parent in dying && child in nodes[parent].children
      requires forall d :: d in dying ==> content.rank(child) < content.rank(d)
      modifies this`nodes, this`nodesSize
      ensures ValidExcept(dying) && nodes.Keys <= old(nodes).Keys
      ensures parent in nodes
      ensures nodes[parent] == old(nodes)[parent].(children := Decrement(old(nodes)[parent].children, child))
      ensures forall q :: q in old(nodes) && q != parent && q != child && (q == ROOT || content.rank(child) <= content.rank(q)) ==>
                q in nodes && nodes[q] == old(nodes)[q]
      ensures forall q :: q in nodes && q != parent ==> nodes[q].children == old(nodes)[q].children
      ensures child in old(nodes) && old(nodes)[child].parents == 1 ==> child !in nodes
      ensures child in old(nodes) && old(nodes)[child].parents != 1 ==>
                child in nodes && nodes[child].parents == old(nodes)[child].parents - 1
      ensures NoNewZero(old(nodes), nodes) && AllBelow(content, child, old(nodes).Keys - nodes.Keys)
      decreases content.rank(child)
    {
      hide Blobs, Edges, Targets, Tracked, DiskClosed, Counts, CacheSize, AllBelow, DropEdge, Decrement;
      DropEdgeIs(nodes, parent, child);
      DropEdgeKeeps(content, nodes, disk, parent, child, dying);
      SizeAfterEdge(content, nodes, DropEdge(nodes, parent, child));
      nodes := DropEdge(nodes, parent, child);
      NoneMoved(content, child, old(nodes).Keys - nodes.Keys);
      if child !in nodes {
        return;
      }
      if nodes[child].parents == 0 {
        TearDown(child, dying);
      }
    }

    /** A node without references leaves, after its edges. */
    method TearDown(node: Hash, ghost dying: set<Hash>)
      requires ValidExcept(dying) && node in nodes && node != ROOT && nodes[node].parents == 0
      requires forall d :: d in dying ==> content.rank(node) < content.rank(d)
      modifies this`nodes, this`nodesSize
      ensures ValidExcept(dying) && nodes.Keys <= old(nodes).Keys && node !in nodes
      ensures forall q :: q in old(nodes) && q != node && (q == ROOT || content.rank(node) <= content.rank(q)) ==>
                q in nodes && nodes[q] == old(nodes)[q]
      ensures forall q :: q in nodes ==> nodes[q].children == old(nodes)[q].children
      ensures NoNewZero(old(nodes), nodes) && AllBelow(content, node, old(nodes).Keys - nodes.Keys)
      decreases content.rank(node), 1
    {
      hide Acyclic, Consistent, CacheSize, DiskClosed, AllBelow;
      DropChildren(node, dying);
      AllBelowItself(content, node, old(nodes).Keys - nodes.Keys, old(nodes).Keys - (nodes.Keys - {node}));
      Evict(node, dying);
    }

    /** delete(db.nodes, node) with the size it accounted for. */
    method Evict(node: Hash, ghost excused: set<Hash>)
      requires node in nodes && node != ROOT
      requires || (ValidExcept(excused + {node}) && nodes[node].children == map[] && nodes[node].parents == 0)
               || (ValidExcept(excused) && node in disk)
      modifies this`nodes, this`nodesSize
      ensures ValidExcept(excused) && nodes == old(nodes) - {node}
    {
      hide Blobs, Edges, Targets, Tracked, DiskClosed, Counts, CacheSize;
      if node in disk && Consistent(content, nodes, disk, excused) {
        RemoveOnDisk(content, nodes, disk, node, excused);
      } else {
        RemoveUnreferenced(content, nodes, disk, node, excused);
      }
      SizeAfterRemove(content, nodes, node);
      nodesSize := nodesSize - HASH_LENGTH - |nodes[node].blob|;
      nodes := nodes - {node};
    }

    /** The cascade: drops every edge of a node without references. */
    method DropChildren(node: Hash, ghost dying: set<Hash>)
      requires ValidExcept(dying) && node in nodes && node != ROOT && nodes[node].parents == 0
      requires forall d :: d in dying ==> content.rank(node) < content.rank(d)
      modifies this`nodes, this`nodesSize
      ensures ValidExcept(dying + {node}) && nodes.Keys <= old(nodes).Keys
      ensures node in nodes && nodes[node] == old(nodes)[node].(children := map[])
      ensures forall q :: q in old(nodes) && q != node && (q == ROOT || content.rank(node) <= content.rank(q)) ==>
                q in nodes && nodes[q] == old(nodes)[q]
      ensures forall q :: q in nodes && q != node ==> nodes[q].children == old(nodes)[q].children
      ensures NoNewZero(old(nodes), nodes) && AllBelow(content, node, old(nodes).Keys - nodes.Keys)
      decreases content.rank(node), 0
    {
      hide Blobs, Edges, Targets, Tracked, DiskClosed, Counts, CacheSize, AllBelow;
      NoneMoved(content, node, old(nodes).Keys - nodes.Keys);
      Excuse(content, nodes, disk, dying, node);
      var todo := nodes[node].children.Keys;
      while todo != {}
        invariant ValidExcept(dying + {node}) && nodes.Keys <= old(nodes).Keys
        invariant node in nodes && nodes[node].children.Keys == todo
        invariant nodes[node].(children := map[]) == old(nodes)[node].(children := map[])
        invariant forall q :: q in old(nodes) && q != node && (q == ROOT || content.rank(node) <= content.rank(q)) ==>
                    q in nodes && nodes[q] == old(nodes)[q]
        invariant forall q :: q in nodes && q != node ==> nodes[q].children == old(nodes)[q].children
        invariant NoNewZero(old(nodes), nodes) && AllBelow(content, node, old(nodes).Keys - nodes.Keys)
        decreases todo
      {
        var k :| k in todo;
        EdgeIsKid(content, nodes, disk, dying + {node}, node, k);
        ghost var before := nodes;
        Drop(k, node, dying + {node});
        AllBelowKid(content, node, k, old(nodes).Keys - before.Keys, before.Keys - nodes.Keys, old(nodes).Keys - nodes.Keys);
        todo := todo - {k};
      }
      assert nodes[node].children == map[];
    }

    /** Dereference of a root. */
    method Dereference(child: Hash)
      requires Valid() && child != ROOT
      requires child in disk || HasReference(nodes, ROOT, child)
      modifies this`nodes, this`nodesSize
      ensures Valid()
      ensures RootRefs(nodes, child) == RootRefs(old(nodes), child) - 1
      ensures forall r :: r != child ==> RootRefs(nodes, r) == RootRefs(old(nodes), r)
      ensures nodes.Keys <= old(nodes).Keys
      ensures child in old(nodes) && old(nodes)[child].parents == 1 ==> child !in nodes
      ensures NoNewZero(old(nodes), nodes) && AllBelow(content, child, old(nodes).Keys - nodes.Keys)
      ensures forall k :: k in old(nodes) && k != ROOT && k !in disk && IsReferenced(old(nodes), k) ==>
                (k in nodes <==> IsReferenced(nodes, k))
      ensures old(Tidy(nodes, disk, {})) ==> Tidy(nodes, disk, {})
    {
      hide Blobs, Edges, Targets, Tracked, DiskClosed, Counts, CacheSize, Acyclic, IsReferenced, NoNewZero, AllBelow;
      Drop(child, ROOT, {});
      forall k | k in old(nodes) && k != ROOT && k !in disk && IsReferenced(old(nodes), k)
        ensures k in nodes <==> IsReferenced(nodes, k)
      {
        CollectedExactly(content, old(nodes), nodes, disk, k);
      }
    }

    // ----- persistence -----

    /** Batch.Write: all of the batch reaches the disk, or none of it. */
    method WriteBatch(batch: Disk) returns (ok: bool)
      requires Valid() && Writable(batch)
      modifies this`disk, this`writesLeft, this`flushes
      ensures Valid()
      ensures ok <==> old(writesLeft) > 0
      ensures writesLeft == if ok then old(writesLeft) - 1 else 0
      ensures ok ==> disk == old(disk) + batch && flushes == old(flushes) + [disk]
      ensures !ok ==> disk == old(disk) && flushes == old(flushes)
    {
      if writesLeft == 0 {
        return false;
      }
      DiskGrows(content, nodes, disk, batch);
      disk := disk + batch;
      writesLeft := writesLeft - 1;
      flushes := flushes + [disk];
      return true;
    }

    /** The disk stays closed under references once the batch is written. */
    ghost predicate Writable(batch: Disk)
      reads this
    {
      && (forall h :: h in batch ==> h in nodes && batch[h] == content.blob(h))
      && DiskClosed(content, disk + batch)
    }

    /** commit: children before parents, flushing whenever the batch is large. */
    method CommitNode(hash: Hash, batch: Disk, size: nat) returns (ok: bool, batch': Disk, size': nat)
      requires Valid() && Writable(batch) && hash != ROOT
      modifies this`disk, this`writesLeft, this`flushes
      ensures Valid() && Writable(batch')
      ensures old(disk).Keys + batch.Keys <= disk.Keys + batch'.Keys || !ok
      ensures old(disk).Keys <= disk.Keys <= old(disk).Keys + nodes.Keys
      ensures old(flushes) <= flushes
      ensures ok && hash in nodes ==> hash in disk || hash in batch'
      ensures hash !in nodes ==> ok && batch' == batch && disk == old(disk)
      ensures AllBelow(content, hash, disk.Keys + batch'.Keys - (old(disk).Keys + batch.Keys))
      ensures !ok ==> writesLeft == 0
      ensures |flushes| - |old(flushes)| == old(writesLeft) - writesLeft
      decreases content.rank(hash)
    {
      hide Consistent, Acyclic, DiskClosed, CacheSize, AllBelow;
      ghost var known := disk.Keys + batch.Keys;
      NoneMoved(content, hash, known - known);
      if hash !in nodes {
        return true, batch, size;
      }
      batch', size' := batch, size;
      var todo := nodes[hash].children.Keys;
      while todo != {}
        invariant Valid() && Writable(batch') && todo <= nodes[hash].children.Keys
        invariant old(disk).Keys + batch.Keys <= disk.Keys + batch'.Keys
        invariant old(disk).Keys <= disk.Keys <= old(disk).Keys + nodes.Keys && old(flushes) <= flushes
        invariant forall k :: k in nodes[hash].children.Keys - todo ==> k in disk || k in batch'
        invariant AllBelow(content, hash, disk.Keys + batch'.Keys - known)
        invariant |flushes| - |old(flushes)| == old(writesLeft) - writesLeft
        decreases todo
      {
        var k :| k in todo;
        EdgeIsKid(content, nodes, disk, {}, hash, k);
        EdgeTarget(content, nodes, disk, hash, k);
        ghost var before := disk.Keys + batch'.Keys;
        ok, batch', size' := CommitNode(k, batch', size');
        ghost var after := disk.Keys + batch'.Keys;
        AllBelowKid(content, hash, k, before - known, after - before, after - known);
        if !ok {
          return;
        }
        todo := todo - {k};
      }
      ghost var moved := disk.Keys + batch'.Keys - known;
      ok, batch', size' := Put(hash, batch', size');
      AllBelowItself(content, hash, moved, disk.Keys + batch'.Keys - known);
    }

    /** The node itself goes into the batch, which is written once it is large. */
    method Put(hash: Hash, batch: Disk, size: nat) returns (ok: bool, batch': Disk, size': nat)
      requires Valid() && Writable(batch) && hash != ROOT && hash in nodes
      requires forall k :: k in nodes[hash].children ==> k in disk || k in batch
      modifies this`disk, this`writesLeft, this`flushes
      ensures Valid() && Writable(batch') && old(flushes) <= flushes
      ensures disk.Keys + batch'.Keys == old(disk).Keys + batch.Keys + {hash}
      ensures old(disk).Keys <= disk.Keys <= old(disk).Keys + nodes.Keys
      ensures size + |nodes[hash].blob| < IDEAL_BATCH_SIZE ==> ok && disk == old(disk)
      ensures ok && size + |nodes[hash].blob| >= IDEAL_BATCH_SIZE ==> batch' == map[] && size' == 0
      ensures !ok ==> writesLeft == 0
      ensures |flushes| - |old(flushes)| == old(writesLeft) - writesLeft
    {
      hide Consistent, Acyclic, DiskClosed, CacheSize;
      BatchPut(content, nodes, disk, batch, hash);
      batch' := batch[hash := nodes[hash].blob];
      size' := size + |nodes[hash].blob|;
      if size' >= IDEAL_BATCH_SIZE {
        ok := WriteBatch(batch');
        if !ok {
          return;
        }
        EmptyBatch(content, disk);
        batch', size' := map[], 0;
      }
      ok := true;
    }

    /** The first half of Commit: everything below the node reaches the disk.
        The cache is not touched, so readers see no difference. */
    method Flush(hash: Hash) returns (ok: bool)
      requires Valid() && hash != ROOT
      modifies this`disk, this`writesLeft, this`flushes
      ensures Valid() && old(flushes) <= flushes && old(disk).Keys <= disk.Keys <= old(disk).Keys + nodes.Keys
      ensures ok && Available(nodes, old(disk), hash) ==> hash in disk
      ensures AllBelow(content, hash, disk.Keys - old(disk).Keys)
      ensures !ok ==> writesLeft == 0
      ensures |flushes| - |old(flushes)| == old(writesLeft) - writesLeft >= if ok then 1 else 0
    {
      hide Consistent, Acyclic, DiskClosed, CacheSize;
      StoredClosed(content, nodes, disk);
      EmptyBatch(content, disk);
      var batch, size;
      ok, batch, size := CommitNode(hash, map[], 0);
      if ok {
        ok := WriteBatch(batch);
      }
    }

    /** uncache: the second half of Commit. */
    method Uncache(hash: Hash)
      requires Valid() && (hash in nodes ==> hash in disk)
      modifies this`nodes, this`nodesSize
      ensures Valid() && hash !in nodes
      ensures nodes.Keys <= old(nodes).Keys
      ensures forall h :: h in nodes ==> nodes[h] == old(nodes)[h]
      ensures forall h :: h in old(nodes) && h !in nodes ==> h in disk
      ensures forall h :: h in old(nodes) && content.rank(h) >= content.rank(hash) && h != hash ==> h in nodes
      ensures AllBelow(content, hash, old(nodes).Keys - nodes.Keys) && TakenAlong(old(nodes), nodes)
      decreases content.rank(hash)
    {
      hide Blobs, Edges, Targets, Tracked, DiskClosed, Counts, CacheSize, Acyclic, AllBelow, TakenAlong;
      NoneMoved(content, hash, nodes.Keys - nodes.Keys);
      NoneTaken(nodes);
      if hash !in nodes {
        return;
      }
      RootNotStored(content, disk);
      var todo := nodes[hash].children.Keys;
      while todo != {}
        invariant Valid() && hash in nodes && todo <= nodes[hash].children.Keys
        invariant nodes.Keys <= old(nodes).Keys
        invariant forall h :: h in nodes ==> nodes[h] == old(nodes)[h]
        invariant forall h :: h in old(nodes) && h !in nodes ==> h in disk
        invariant forall h :: h in old(nodes) && content.rank(h) >= content.rank(hash) ==> h in nodes
        invariant AllBelow(content, hash, old(nodes).Keys - nodes.Keys) && TakenAlong(old(nodes), nodes)
        invariant forall k :: k in nodes[hash].children.Keys - todo ==> k !in nodes
        decreases todo
      {
        var k :| k in todo;
        EdgeIsKid(content, nodes, disk, {}, hash, k);
        KidsStored(content, nodes, disk, hash, k);
        ghost var before := nodes;
        Uncache(k);
        AllBelowKid(content, hash, k, old(nodes).Keys - before.Keys, before.Keys - nodes.Keys, old(nodes).Keys - nodes.Keys);
        MoreTaken(old(nodes), before, nodes);
        todo := todo - {k};
      }
      ghost var before := nodes;
      Evict(hash, {});
      AllBelowItself(content, hash, old(nodes).Keys - before.Keys, old(nodes).Keys - nodes.Keys);
      LastTaken(old(nodes), before, hash);
    }

    /** Commit: both halves without anything in between. */
    method Commit(hash: Hash) returns (ok: bool)
      requires Valid() && hash != ROOT
      modifies this`nodes, this`nodesSize, this`disk, this`writesLeft, this`flushes
      ensures Valid() && old(flushes) <= flushes && old(disk).Keys <= disk.Keys
      ensures ok && Available(old(nodes), old(disk), hash) ==> hash in disk && hash !in nodes
      ensures !ok ==> nodes == old(nodes) && writesLeft == 0
      ensures AllBelow(content, hash, disk.Keys - old(disk).Keys) && AllBelow(content, hash, old(nodes).Keys - nodes.Keys)
      ensures TakenAlong(old(nodes), nodes) && forall h :: h in nodes ==> h in old(nodes) && nodes[h] == old(nodes)[h]
      ensures forall h :: h in old(nodes) && h !in nodes ==> h in disk
      ensures forall h :: Available(nodes, disk, h) <==> Available(old(nodes), old(disk), h)
      ensures forall h :: Available(nodes, disk, h) ==> Fetch(nodes, disk, h) == Fetch(old(nodes), old(disk), h)
      ensures forall r :: RootRefs(nodes, r) == RootRefs(old(nodes), r)
    {
      var before, stored := nodes, disk;
      ok := Flush(hash);
      if ok {
        Uncache(hash);
      }
      SameAnswers(content, before, stored, nodes, disk);
    }

    // ----- runs -----

    ghost function Now(): Snapshot
      reads this
    {
      Snapshot(nodes, disk)
    }

    /** Any interleaving of the operations, with the two halves of Commit apart. After every step,
        every trie below a referenced root is complete. */
    method Run(steps: seq<Step>) returns (ghost trace: seq<Snapshot>)
      requires Valid()
      modifies this
      ensures Valid() && old(flushes) <= flushes
      ensures |trace| == |steps| + 1 && trace[0] == old(Now()) && trace[|steps|] == Now()
      ensures forall i :: 0 <= i < |trace| ==> Whole(content, trace[i])
      ensures forall i :: 0 <= i < |steps| ==> IsDone(content, trace[i], steps[i], trace[i + 1], writesLeft == 0)
    {
      hide Consistent, Acyclic, DiskClosed, CacheSize, Whole, IsDone, Complete, RootRefs;
      trace := [Now()];
      AllWhole(content, nodes, disk);
      for i := 0 to |steps|
        invariant Valid() && old(flushes) <= flushes
        invariant |trace| == i + 1 && trace[0] == old(Now()) && trace[i] == Now()
        invariant forall j :: 0 <= j < |trace| ==> Whole(content, trace[j])
        invariant forall j :: 0 <= j < i ==> IsDone(content, trace[j], steps[j], trace[j + 1], writesLeft == 0)
      {
        Take(steps[i]);
        AllWhole(content, nodes, disk);
        forall j | 0 <= j < i ensures IsDone(content, trace[j], steps[j], trace[j + 1], writesLeft == 0) {
          StillDone(content, trace[j], steps[j], trace[j + 1]);
        }
        trace := trace + [Now()];
      }
    }

    /** A step that no caller may take in the current state is skipped. */
    method Take(step: Step)
      requires Valid()
      modifies this
      ensures Valid() && old(flushes) <= flushes
      ensures IsDone(content, old(Now()), step, Now(), writesLeft == 0) && (old(writesLeft) == 0 ==> writesLeft == 0)
    {
      hide Consistent, Acyclic, DiskClosed, CacheSize, AllBelow, Tidy, IsReferenced, IsDone, RootRefs;
      RootCached(content, nodes, disk);
      ghost var before := Now();
      if !IsAllowed(content, nodes, disk, step) {
        Skipped(content, before, step);
        return;
      }
      match step {
        case Store(h) =>
          Store(h, content.blob(h), content.kids(h));
        case Reference(h) =>
          Reference(h, ROOT, {});
          OneRoot(before.nodes, h);
        case Dereference(h) =>
          Dereference(h);
        case Flush(h) =>
          var _ := Flush(h);
        case Uncache(h) =>
          Uncache(h);
          RootCached(content, nodes, disk);
          SameRoots(before.nodes, nodes);
      }
      Effective(content, before, step, Now(), writesLeft == 0);
    }
  }

  /** Cache and disk at one moment. */
  datatype Snapshot = Snapshot(nodes: Nodes, disk: Disk)

  /** Every trie below a referenced root can be read back completely. */
  ghost predicate Whole(c: Content, s: Snapshot) {
    forall r :: RootRefs(s.nodes, r) >= 1 ==> Complete(c, s.nodes, s.disk, r)
  }

  /** A caller may take the step. */
  predicate IsAllowed(c: Content, nodes: Nodes, disk: Disk, step: Step) {
    && step.hash != ROOT && ROOT in nodes
    && match step {
         case Store(h) => forall k :: k in c.kids(h) ==> Available(nodes, disk, k)
         case Dereference(h) => h in disk || HasReference(nodes, ROOT, h)
         case Uncache(h) => h in disk
         case _ => true
       }
  }

  /** By how much a step changes the references to a root. */
  function Change(c: Content, s: Snapshot, step: Step, r: Hash): int {
    if r != step.hash || !IsAllowed(c, s.nodes, s.disk, step) then 0
    else match step
      case Reference(h) => if h in s.nodes then 1 else 0
      case Dereference(_) => -1
      case _ => 0
  }

  /** What a step has done: root references change exactly by it, stored nodes are cached, flushed
      ones are on disk unless writing fails, and uncached ones have left. */
  ghost predicate IsDone(c: Content, a: Snapshot, step: Step, b: Snapshot, failing: bool) {
    && (forall r :: RootRefs(b.nodes, r) == RootRefs(a.nodes, r) + Change(c, a, step, r))
    && (IsAllowed(c, a.nodes, a.disk, step) ==>
          && (step.Store? ==> step.hash in b.nodes)
          && (step.Flush? && Available(a.nodes, a.disk, step.hash) ==> step.hash in b.disk || failing)
          && (step.Uncache? ==> step.hash !in b.nodes))
  }

  /** What that means for each kind of step. */
  lemma DoneMeans(c: Content, a: Snapshot, step: Step, b: Snapshot)
    requires ROOT in a.nodes && step.hash != ROOT && IsDone(c, a, step, b, false)
    ensures step.Reference? && step.hash in a.nodes ==>
              RootRefs(b.nodes, step.hash) == RootRefs(a.nodes, step.hash) + 1
    ensures step.Dereference? && (step.hash in a.disk || RootRefs(a.nodes, step.hash) >= 1) ==>
              RootRefs(b.nodes, step.hash) == RootRefs(a.nodes, step.hash) - 1
    ensures forall r :: r != step.hash ==> RootRefs(b.nodes, r) == RootRefs(a.nodes, r)
    ensures step.Store? && (forall k :: k in c.kids(step.hash) ==> k in a.nodes || k in a.disk) ==> step.hash in b.nodes
    ensures step.Flush? && (step.hash in a.nodes || step.hash in a.disk) ==> step.hash in b.disk
    ensures step.Uncache? && step.hash in a.disk ==> step.hash !in b.nodes
  {
    if step.Store? && forall k :: k in c.kids(step.hash) ==> k in a.nodes || k in a.disk {
      assert forall k :: k in c.kids(step.hash) ==> Available(a.nodes, a.disk, k);
    }
  }

  lemma Skipped(c: Content, s: Snapshot, step: Step)
    requires !IsAllowed(c, s.nodes, s.disk, step)
    ensures IsDone(c, s, step, s, true) && IsDone(c, s, step, s, false)
  {
  }

  lemma Effective(c: Content, a: Snapshot, step: Step, b: Snapshot, failing: bool)
    requires IsAllowed(c, a.nodes, a.disk, step)
    requires forall r :: r != step.hash || step.Store? || step.Flush? || step.Uncache? ==>
               RootRefs(b.nodes, r) == RootRefs(a.nodes, r)
    requires step.Reference? ==>
               RootRefs(b.nodes, step.hash) == RootRefs(a.nodes, step.hash) + if step.hash in a.nodes then 1 else 0
    requires step.Dereference? ==> RootRefs(b.nodes, step.hash) == RootRefs(a.nodes, step.hash) - 1
    requires step.Store? ==> step.hash in b.nodes
    requires step.Flush? && Available(a.nodes, a.disk, step.hash) ==> step.hash in b.disk || failing
    requires step.Uncache? ==> step.hash !in b.nodes
    ensures IsDone(c, a, step, b, failing)
  {
    hide RootRefs, IsAllowed;
  }

  lemma OneRoot(nodes: Nodes, h: Hash)
    requires ROOT in nodes && h != ROOT
    ensures var after := if h in nodes then AddEdge(nodes, ROOT, h) else nodes;
            && (forall r :: r != h ==> RootRefs(after, r) == RootRefs(nodes, r))
            && RootRefs(after, h) == RootRefs(nodes, h) + if h in nodes then 1 else 0
  {
  }

  lemma SameRoots(a: Nodes, b: Nodes)
    requires ROOT in a && ROOT in b && a[ROOT] == b[ROOT]
    ensures forall r :: RootRefs(a, r) == RootRefs(b, r)
  {
  }

  lemma StillDone(c: Content, a: Snapshot, step: Step, b: Snapshot)
    ensures IsDone(c, a, step, b, false) ==> IsDone(c, a, step, b, true)
  {
    hide RootRefs, IsAllowed, Change;
  }

  lemma AllWhole(c: Content, nodes: Nodes, disk: Disk)
    requires Acyclic(c) && Consistent(c, nodes, disk, {})
    ensures Whole(c, Snapshot(nodes, disk))
  {
    forall r | RootRefs(nodes, r) >= 1 ensures Complete(c, nodes, disk, r) {
      AvailableIsComplete(c, nodes, disk, r);
    }
  }

  /** A node 2 that refers to a node 1. */
  function ParentAndChild(): Content {
    Content((h: Hash) => [], (h: Hash) => if h == 2 then {1} else {}, (h: Hash) => h)
  }

  /** Both cached, the child on disk already. */
  method CachedPair() returns (db: Database)
    ensures fresh(db) && db.Valid() && db.content == ParentAndChild() && db.disk == map[1 := []]
    ensures db.nodes.Keys == {ROOT, 1, 2} && db.nodes[2].children.Keys == {1} && RootRefs(db.nodes, 1) == 0
  {
    hide Consistent, DiskClosed, CacheSize, Referrers, RootRefs, Wired;
    OneStored();
    db := new Database(ParentAndChild(), map[1 := []], 0);
    NoEdges(db.nodes, 1);
    ghost var before := db.nodes;
    db.Store(1, [], {});
    WiredNew(before, db.nodes, 1, {});
    before := db.nodes;
    db.Store(2, [], {1});
    WiredNew(before, db.nodes, 2, {1});
  }

  /** A node on disk whose count is wrong: it left the cache while a parent still had its edge,
      and is stored again with a count of zero. */
  method CountOnDisk() returns (db: Database)
    ensures db.Valid() && 1 in db.nodes && 1 in db.disk
    ensures db.nodes[1].parents == 0 && Referrers(db.nodes, 1) == {2} && RootRefs(db.nodes, 1) == 0
    ensures Gap(db.nodes, 1) == 1
  {
    hide Consistent, DiskClosed, CacheSize, Referrers, RootRefs, Wired, Acyclic;
    db := CachedPair();
    ghost var before := db.nodes;
    db.Uncache(1);
    OneLeft(before, db.nodes);
    before := db.nodes;
    db.Store(1, [], {});
    WiredNew(before, db.nodes, 1, {});
    OneEdge(db.nodes);
  }

  lemma OneLeft(before: Nodes, nodes: Nodes)
    requires before.Keys == {ROOT, 1, 2} && nodes.Keys == {ROOT, 2}
    requires forall h :: h in nodes ==> nodes[h] == before[h]
    ensures RootRefs(nodes, 1) == RootRefs(before, 1)
  {
  }

  lemma WiredNew(before: Nodes, nodes: Nodes, h: Hash, kids: set<Hash>)
    requires h !in before && Wired(before[h := CachedNode([], 0, map[])], nodes, h, kids)
    ensures nodes.Keys == before.Keys + {h}
    ensures nodes[h].parents == 0 && nodes[h].children.Keys == kids * nodes.Keys
    ensures forall q :: q in before ==> nodes[q].children == before[q].children
  {
  }

  lemma OneStored()
    ensures Acyclic(ParentAndChild()) && DiskClosed(ParentAndChild(), map[1 := []])
  {
  }

  lemma NoEdges(nodes: Nodes, k: Hash)
    requires nodes == map[ROOT := CachedNode([], 0, map[])]
    ensures RootRefs(nodes, k) == 0
  {
  }

  lemma OneEdge(nodes: Nodes)
    requires nodes.Keys == {ROOT, 1, 2} && nodes[1].children.Keys == {} && nodes[2].children.Keys == {1}
    requires nodes[1].parents == 0 && RootRefs(nodes, 1) == 0
    ensures Referrers(nodes, 1) == {2} && Gap(nodes, 1) == 1
  {
  }

  datatype Step =
    | Store(hash: Hash)
    | Reference(hash: Hash)
    | Dereference(hash: Hash)
    | Flush(hash: Hash)
    | Uncache(hash: Hash)
}
